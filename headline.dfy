/**
 * Typed view over a HEADLINE node: level, TODO keyword and its type, title,
 * COMMENT and ARCHIVE detection, tags, priority, and the clock entries of its
 * LOGBOOK drawers.  Every accessor is a query over the node's children; an
 * absent part yields the empty/default answer.
 */
module HeadlineView {
  import opened Wrappers
  import opened Syntax
  import DrawerView

  datatype TodoType = Todo | Done

  /** A `Headline` wraps a node of kind HEADLINE. */
  predicate IsHeadline(h: Elem) { IsNodeOf(h, Headline) }

  // ---------------------------------------------------------------------------
  // Level

  /**
   * `level`: the byte length of the first HEADLINE_STARS token among the
   * direct children, 0 when there is none.
   */
  function Level(h: Elem): nat
    requires IsHeadline(h)
  {
    match FindToken(h.children, HeadlineStars)
    case None => 0
    case Some(stars) => Utf8Len(stars)
  }

  predicate AllStars(s: string) { forall i :: 0 <= i < |s| ==> s[i] == '*' }

  /**
   * The level counts the leading star characters: it is the number of `*` in
   * the first HEADLINE_STARS token, and 0 only when that token is missing or
   * empty.
   */
  lemma LevelCountsStars(h: Elem)
    requires IsHeadline(h)
    ensures FindToken(h.children, HeadlineStars).None? ==> Level(h) == 0
    ensures FindToken(h.children, HeadlineStars).Some? &&
            AllStars(FindToken(h.children, HeadlineStars).value) ==>
              Level(h) == |FindToken(h.children, HeadlineStars).value|
    ensures Level(h) == 0 <==> FindToken(h.children, HeadlineStars) in {None, Some("")}
  {
    match FindToken(h.children, HeadlineStars)
    case None =>
    case Some(stars) =>
      if AllStars(stars) {
        AsciiUtf8Len(stars);
      }
      if stars != [] {
        assert Utf8Len(stars) >= Utf8Width(stars[0]) >= 1;
      }
  }

  // ---------------------------------------------------------------------------
  // TODO keyword

  predicate IsKeyword(e: Elem)
  {
    IsTokenOf(e, HeadlineKeywordTodo) || IsTokenOf(e, HeadlineKeywordDone)
  }

  /** The first direct token child of kind HEADLINE_KEYWORD_TODO or HEADLINE_KEYWORD_DONE. */
  function FirstKeyword(cs: seq<Elem>): (r: Option<Elem>)
    ensures r.None? <==> forall i :: 0 <= i < |cs| ==> !IsKeyword(cs[i])
    ensures r.Some? ==> IsKeyword(r.value)
    ensures r.Some? ==>
              exists i :: 0 <= i < |cs| && cs[i] == r.value && forall j :: 0 <= j < i ==> !IsKeyword(cs[j])
  {
    if cs == [] then None
    else if IsKeyword(cs[0]) then Some(cs[0])
    else
      var r := FirstKeyword(cs[1..]);
      assert forall i :: 1 <= i < |cs| ==> cs[i] == cs[1..][i - 1];
      r
  }

  /** The first TODO/DONE classification found among the direct children. */
  function FirstTodoType(cs: seq<Elem>): Option<TodoType>
  {
    if cs == [] then None
    else if IsTokenOf(cs[0], HeadlineKeywordTodo) then Some(Todo)
    else if IsTokenOf(cs[0], HeadlineKeywordDone) then Some(Done)
    else FirstTodoType(cs[1..])
  }

  /** `todo_keyword`: the first keyword token among the direct children, none when there is none. */
  function TodoKeyword(h: Elem): (r: Option<Elem>)
    requires IsHeadline(h)
    ensures r.None? <==> forall i :: 0 <= i < |h.children| ==> !IsKeyword(h.children[i])
    ensures r.Some? ==> IsKeyword(r.value)
    ensures r.Some? ==>
              exists i :: 0 <= i < |h.children| && h.children[i] == r.value &&
                          forall j :: 0 <= j < i ==> !IsKeyword(h.children[j])
  {
    FirstKeyword(h.children)
  }

  /** `todo_type`. */
  function TodoTypeOf(h: Elem): Option<TodoType>
    requires IsHeadline(h)
  {
    FirstTodoType(h.children)
  }

  /** `is_todo`. */
  predicate IsTodo(h: Elem)
    requires IsHeadline(h)
  {
    TodoTypeOf(h) == Some(Todo)
  }

  /** `is_done`. */
  predicate IsDone(h: Elem)
    requires IsHeadline(h)
  {
    TodoTypeOf(h) == Some(Done)
  }

  lemma {:induction false} FirstTodoTypeMatchesKeyword(cs: seq<Elem>)
    ensures FirstTodoType(cs) ==
              match FirstKeyword(cs)
              case None => None
              case Some(k) => Some(if k.kind == HeadlineKeywordTodo then Todo else Done)
  {
    if cs != [] && !IsKeyword(cs[0]) {
      FirstTodoTypeMatchesKeyword(cs[1..]);
    }
  }

  /**
   * `todo_type` classifies the very token `todo_keyword` returns: there is a
   * type exactly when there is a keyword, `Todo` for a TODO token and `Done`
   * for a DONE token; so a headline is never both to-do and done.
   */
  lemma TodoTypeMatchesKeyword(h: Elem)
    requires IsHeadline(h)
    ensures TodoTypeOf(h).Some? <==> TodoKeyword(h).Some?
    ensures IsTodo(h) <==> TodoKeyword(h).Some? && TodoKeyword(h).value.kind == HeadlineKeywordTodo
    ensures IsDone(h) <==> TodoKeyword(h).Some? && TodoKeyword(h).value.kind == HeadlineKeywordDone
    ensures !(IsTodo(h) && IsDone(h))
  {
    FirstTodoTypeMatchesKeyword(h.children);
  }

  // ---------------------------------------------------------------------------
  // Title

  /** `title`: the children of the first HEADLINE_TITLE node, none when it is absent. */
  function Title(h: Elem): seq<Elem>
    requires IsHeadline(h)
  {
    match FindNode(h.children, HeadlineTitle)
    case None => []
    case Some(n) => n.children
  }

  /** `title_raw`: the title node's text, the empty string when it is absent. */
  function TitleRaw(h: Elem): (r: string)
    requires IsHeadline(h)
    ensures r == Concat(Title(h))
    ensures FindNode(h.children, HeadlineTitle).None? ==> r == ""
  {
    match FindNode(h.children, HeadlineTitle)
    case None => ""
    case Some(n) => TextOf(n)
  }

  /** Rust's `char::is_whitespace`: the Unicode White_Space property. */
  predicate IsWhitespace(c: char)
  {
    ('\t' <= c <= '\r') || c == ' ' || c == '\U{85}' || c == '\U{A0}' || c == '\U{1680}' ||
    ('\U{2000}' <= c <= '\U{200A}') || c == '\U{2028}' || c == '\U{2029}' || c == '\U{202F}' ||
    c == '\U{205F}' || c == '\U{3000}'
  }

  /**
   * The test applied to the first title token's text: it starts with
   * "COMMENT" and either ends there or continues with whitespace.
   */
  predicate CommentKeyword(t: string)
  {
    |t| >= 7 && t[..7] == "COMMENT" && (|t| == 7 || IsWhitespace(t[7]))
  }

  /** `is_commented`. */
  predicate IsCommented(h: Elem)
    requires IsHeadline(h)
  {
    var title := Title(h);
    |title| > 0 && IsTokenOf(title[0], Text) && CommentKeyword(title[0].text)
  }

  /** The leading run of non-whitespace characters of `t`. */
  function FirstWord(t: string): (w: string)
    ensures |w| <= |t| && w == t[..|w|]
    ensures |w| < |t| ==> IsWhitespace(t[|w|])
    ensures forall i :: 0 <= i < |w| ==> !IsWhitespace(w[i])
  {
    if t == [] || IsWhitespace(t[0]) then [] else [t[0]] + FirstWord(t[1..])
  }

  /** A whitespace-free `w` is the first word of `t` iff `t` starts with `w` followed by whitespace or the end. */
  lemma {:induction false} FirstWordIs(t: string, w: string)
    requires forall i :: 0 <= i < |w| ==> !IsWhitespace(w[i])
    ensures FirstWord(t) == w <==> |t| >= |w| && t[..|w|] == w && (|t| == |w| || IsWhitespace(t[|w|]))
  {
    if w != [] && t != [] && !IsWhitespace(t[0]) {
      FirstWordIs(t[1..], w[1..]);
      assert FirstWord(t) == [t[0]] + FirstWord(t[1..]);
      if |t| >= |w| { assert t[..|w|] == [t[0]] + t[1..][..|w| - 1]; }
      assert w == [w[0]] + w[1..];
    }
  }

  /** A headline is commented exactly when the first word of its leading TEXT title token is "COMMENT". */
  lemma CommentedIffFirstWord(h: Elem)
    requires IsHeadline(h)
    ensures IsCommented(h) <==>
              |Title(h)| > 0 && IsTokenOf(Title(h)[0], Text) && FirstWord(Title(h)[0].text) == "COMMENT"
    ensures FindNode(h.children, HeadlineTitle).None? ==> !IsCommented(h)
  {
    if |Title(h)| > 0 && IsTokenOf(Title(h)[0], Text) {
      FirstWordIs(Title(h)[0].text, "COMMENT");
    }
  }

  // ---------------------------------------------------------------------------
  // Tags and priority

  /** `tags`: the TEXT tokens of the first HEADLINE_TAGS node, in source order. */
  function Tags(h: Elem): (r: seq<string>)
    requires IsHeadline(h)
    ensures FindNode(h.children, HeadlineTags).None? ==> r == []
    ensures FindNode(h.children, HeadlineTags).Some? ==>
              forall t :: t in r <==> Tok(Text, t) in FindNode(h.children, HeadlineTags).value.children
  {
    match FindNode(h.children, HeadlineTags)
    case None => []
    case Some(n) =>
      TokensOfMembers(n.children, Text);
      TokensOf(n.children, Text)
  }

  /** `is_archived`: some tag is exactly "ARCHIVE". */
  predicate IsArchived(h: Elem)
    requires IsHeadline(h)
  {
    exists i :: 0 <= i < |Tags(h)| && Tags(h)[i] == "ARCHIVE"
  }

  /**
   * A headline is archived exactly when its first HEADLINE_TAGS node holds a
   * TEXT token whose whole text is "ARCHIVE" (a tag "ARCHIVED" does not count).
   */
  lemma ArchivedIffArchiveTag(h: Elem)
    requires IsHeadline(h)
    ensures IsArchived(h) <==>
              FindNode(h.children, HeadlineTags).Some? &&
              Tok(Text, "ARCHIVE") in FindNode(h.children, HeadlineTags).value.children
  {
    if FindNode(h.children, HeadlineTags).Some? {
      var n := FindNode(h.children, HeadlineTags).value;
      TokensOfMembers(n.children, Text);
      if Tok(Text, "ARCHIVE") in n.children {
        assert "ARCHIVE" in Tags(h);
      }
    }
  }

  /** `priority`: the first TEXT token of the first HEADLINE_PRIORITY node. */
  function Priority(h: Elem): (r: Option<string>)
    requires IsHeadline(h)
    ensures FindNode(h.children, HeadlinePriority).None? ==> r.None?
    ensures r.Some? ==> Tok(Text, r.value) in FindNode(h.children, HeadlinePriority).value.children
  {
    match FindNode(h.children, HeadlinePriority)
    case None => None
    case Some(n) => FindToken(n.children, Text)
  }

  // ---------------------------------------------------------------------------
  // Clocks

  /** `eq_ignore_ascii_case`. */
  predicate EqIgnoreAsciiCase(a: string, b: string)
  {
    |a| == |b| && forall i :: 0 <= i < |a| ==> AsciiLower(a[i]) == AsciiLower(b[i])
  }

  function AsciiLower(c: char): char
  {
    if 'A' <= c <= 'Z' then (c as int + 32) as char else c
  }

  predicate IsLogbook(d: Elem)
    requires d.Node?
  {
    EqIgnoreAsciiCase(DrawerView.NameText(d), "LOGBOOK")
  }

  /** The CLOCK nodes in the first DRAWER_CONTENT of drawer `d`, when `d` is a LOGBOOK. */
  function LogbookClocks(d: Elem): (r: seq<Elem>)
    requires d.Node?
    ensures forall c :: c in r <==>
              IsLogbook(d) && FindNode(d.children, DrawerContent).Some? &&
              c in FindNode(d.children, DrawerContent).value.children && IsNodeOf(c, Clock)
  {
    if IsLogbook(d) then
      match FindNode(d.children, DrawerContent)
      case None => []
      case Some(content) => NodesOf(content.children, Clock)
    else []
  }

  function ClocksInDrawers(ds: seq<Elem>): (r: seq<Elem>)
    requires forall d :: d in ds ==> d.Node?
    ensures forall c :: c in r <==> exists d :: d in ds && c in LogbookClocks(d)
  {
    if ds == [] then []
    else
      assert forall d :: d in ds <==> d == ds[0] || d in ds[1..];
      LogbookClocks(ds[0]) + ClocksInDrawers(ds[1..])
  }

  function ClocksInSections(ss: seq<Elem>): (r: seq<Elem>)
    requires forall s :: s in ss ==> s.Node?
    ensures forall c :: c in r <==>
              exists s, d :: s in ss && d in s.children && IsNodeOf(d, Drawer) && c in LogbookClocks(d)
  {
    if ss == [] then []
    else
      assert forall s :: s in ss <==> s == ss[0] || s in ss[1..];
      ClocksInDrawers(NodesOf(ss[0].children, Drawer)) + ClocksInSections(ss[1..])
  }

  /**
   * `clocks`: the CLOCK nodes inside the DRAWER_CONTENT of every LOGBOOK
   * drawer (name compared ignoring ASCII case) that sits directly in one of
   * this headline's SECTION children.
   */
  function Clocks(h: Elem): (r: seq<Elem>)
    requires IsHeadline(h)
    ensures forall c :: c in r ==> IsNodeOf(c, Clock)
    ensures forall c :: c in r <==>
              exists s, d :: s in h.children && IsNodeOf(s, Section) &&
                             d in s.children && IsNodeOf(d, Drawer) && c in LogbookClocks(d)
  {
    ClocksInSections(NodesOf(h.children, Section))
  }

  /** Clocks keep drawer order and multiplicity: the drawers `a + b` give those of `a`, then those of `b`. */
  lemma {:induction false} ClocksInDrawersAppend(a: seq<Elem>, b: seq<Elem>)
    requires forall d :: d in a ==> d.Node?
    requires forall d :: d in b ==> d.Node?
    ensures ClocksInDrawers(a + b) == ClocksInDrawers(a) + ClocksInDrawers(b)
  {
    if a == [] {
      assert a + b == b;
    } else {
      assert (a + b)[0] == a[0] && (a + b)[1..] == a[1..] + b;
      ClocksInDrawersAppend(a[1..], b);
    }
  }

  /** Clocks keep section order and multiplicity: the sections `a + b` give those of `a`, then those of `b`. */
  lemma {:induction false} ClocksInSectionsAppend(a: seq<Elem>, b: seq<Elem>)
    requires forall s :: s in a ==> s.Node?
    requires forall s :: s in b ==> s.Node?
    ensures ClocksInSections(a + b) == ClocksInSections(a) + ClocksInSections(b)
  {
    if a == [] {
      assert a + b == b;
    } else {
      assert (a + b)[0] == a[0] && (a + b)[1..] == a[1..] + b;
      ClocksInSectionsAppend(a[1..], b);
    }
  }

  /**
   * `clocks` walks the headline's children in order: children `a + b` give
   * the clocks of `a` followed by those of `b`; a single SECTION child gives
   * the clocks of its drawers, in order, and any other single child none.
   */
  lemma ClocksChildren(a: seq<Elem>, b: seq<Elem>)
    ensures Clocks(Node(Headline, a + b)) == Clocks(Node(Headline, a)) + Clocks(Node(Headline, b))
    ensures |a| == 1 && IsNodeOf(a[0], Section) ==>
              Clocks(Node(Headline, a)) == ClocksInDrawers(NodesOf(a[0].children, Drawer))
    ensures |a| == 1 && !IsNodeOf(a[0], Section) ==> Clocks(Node(Headline, a)) == []
  {
    NodesOfAppend(a, b, Section);
    ClocksInSectionsAppend(NodesOf(a, Section), NodesOf(b, Section));
    if |a| == 1 {
      assert a[1..] == [];
      if IsNodeOf(a[0], Section) {
        assert NodesOf(a, Section) == [a[0]];
        assert NodesOf(a, Section)[1..] == [];
      }
    }
  }

  /** The drawer ":name:" … ":END:" whose DRAWER_CONTENT holds `content`. */
  function DrawerOf(name: string, content: seq<Elem>): Elem
  {
    Node(Drawer, [Node(DrawerBegin, [Tok(Colon, ":"), Tok(Text, name), Tok(Colon, ":"), Tok(NewLine, "\n")]),
                  Node(DrawerContent, content),
                  Node(DrawerEnd, [Tok(Colon, ":"), Tok(Text, "END"), Tok(Colon, ":"), Tok(NewLine, "\n")])])
  }

  /** Its name is `name`, so it is a logbook exactly when `name` is "LOGBOOK" up to ASCII case. */
  lemma DrawerOfName(name: string, content: seq<Elem>)
    ensures DrawerView.NameText(DrawerOf(name, content)) == name
  {
    var d := DrawerOf(name, content);
    assert FirstNodeIndex(d.children) == Some(0);
    var b := d.children[0].children;
    assert b[1..][0] == Tok(Text, name);
    assert FindToken(b[1..], Text) == Some(name);
  }

  /** A drawer's clocks are the CLOCK nodes of its content, in order, when it is a logbook, and none otherwise. */
  lemma DrawerOfClocks(name: string, content: seq<Elem>)
    ensures LogbookClocks(DrawerOf(name, content)) ==
              if EqIgnoreAsciiCase(name, "LOGBOOK") then NodesOf(content, Clock) else []
  {
    var d := DrawerOf(name, content);
    DrawerOfName(name, content);
    assert FindNodeIndex(d.children, DrawerContent) == Some(1) by {
      assert d.children[1..][0] == Node(DrawerContent, content);
    }
  }

  /** The documented logbook content: paragraph, clock, paragraph, the same clock again, paragraph. */
  lemma TwoClocksContent(p1: Elem, p2: Elem, p3: Elem, clk: Elem)
    requires IsNodeOf(p1, Paragraph) && IsNodeOf(p2, Paragraph) && IsNodeOf(p3, Paragraph)
    requires IsNodeOf(clk, Clock)
    ensures NodesOf([p1, clk, p2, clk, p3], Clock) == [clk, clk]
  {
    var t4 := [p3];
    var t3 := [clk] + t4;
    var t2 := [p2] + t3;
    var t1 := [clk] + t2;
    assert [p1, clk, p2, clk, p3] == [p1] + t1;
    assert NodesOf(t4, Clock) == [] by { assert t4[1..] == []; }
    assert NodesOf(t3, Clock) == [clk] by { assert t3[1..] == t4; }
    assert NodesOf(t2, Clock) == [clk] by { assert t2[1..] == t3; }
    assert NodesOf(t1, Clock) == [clk, clk] by { assert t1[1..] == t2; }
  }

  /** Children without a SECTION give no clocks. */
  lemma NoSectionNoClocks(cs: seq<Elem>)
    requires forall e :: e in cs ==> !IsNodeOf(e, Section)
    ensures Clocks(Node(Headline, cs)) == []
  {
    NodesOfNone(cs, Section);
  }

  /** A section of one drawer between two paragraphs gives that drawer's clocks. */
  lemma SectionWithDrawer(foo1: Elem, d: Elem, foo2: Elem)
    requires IsNodeOf(foo1, Paragraph) && IsNodeOf(d, Drawer) && IsNodeOf(foo2, Paragraph)
    ensures ClocksInDrawers(NodesOf([foo1, d, foo2], Drawer)) == LogbookClocks(d)
  {
    NodesOfCons(foo2, [], Drawer);
    NodesOfCons(d, [foo2], Drawer);
    NodesOfCons(foo1, [d, foo2], Drawer);
    assert [foo1, d, foo2] == [foo1] + [d, foo2] && [d, foo2] == [d] + [foo2] && [foo2] == [foo2] + [];
    assert [d][1..] == [];
  }

  /**
   * The documented logbook: under a headline, a section holding a paragraph,
   * a LOGBOOK drawer and another paragraph, where the drawer's content is
   * paragraph, clock, paragraph, clock, paragraph with the two clocks equal
   * ("CLOCK: [2024-10-12]" twice).  Both clocks are listed: the count is 2.
   * The drawer is named "LOGBOOK", or any spelling of it up to ASCII case.
   */
  lemma ClocksExample(pre: seq<Elem>, name: string, foo1: Elem, foo2: Elem, p1: Elem, p2: Elem, p3: Elem, clk: Elem)
    requires forall e :: e in pre ==> !IsNodeOf(e, Section)
    requires EqIgnoreAsciiCase(name, "LOGBOOK")
    requires IsNodeOf(foo1, Paragraph) && IsNodeOf(foo2, Paragraph)
    requires IsNodeOf(p1, Paragraph) && IsNodeOf(p2, Paragraph) && IsNodeOf(p3, Paragraph)
    requires IsNodeOf(clk, Clock)
    ensures Clocks(Node(Headline, pre + [Node(Section, [foo1, DrawerOf(name, [p1, clk, p2, clk, p3]), foo2])])) == [clk, clk]
  {
    var sec := Node(Section, [foo1, DrawerOf(name, [p1, clk, p2, clk, p3]), foo2]);
    ClocksChildren(pre, [sec]);
    ClocksChildren([sec], []);
    NoSectionNoClocks(pre);
    SectionWithDrawer(foo1, DrawerOf(name, [p1, clk, p2, clk, p3]), foo2);
    DrawerOfClocks(name, [p1, clk, p2, clk, p3]);
    TwoClocksContent(p1, p2, p3, clk);
  }
}
