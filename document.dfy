/**
 * The top-level document parser: an optional property drawer, blank lines,
 * an optional leading section, then headlines until the input is used up.
 *
 * The four sub-parsers it calls are parameters (a `Grammar`); each returns a
 * parse result in the style of a combinator library: success with the parsed
 * value and the remaining input, a recoverable `Error` (which `opt` turns into
 * "nothing parsed") or an unrecoverable `Failure` (which everything passes on).
 */
module DocumentParser {
  import opened Wrappers
  import opened Syntax

  datatype Res<T> = Ok(value: T, rest: string) | Error | Failure

  /** The `?` operator: a result that is not a success, passed on unchanged. */
  function Propagate<A, B>(r: Res<A>): (q: Res<B>)
    requires !r.Ok?
    ensures q.Error? <==> r.Error?
    ensures q.Failure? <==> r.Failure?
  {
    if r.Error? then Error else Failure
  }

  /** `opt(p)`: a recoverable error becomes "nothing parsed, input untouched". */
  function Opt(r: Res<Elem>, input: string): (q: Res<Option<Elem>>)
    ensures q.Ok? <==> !r.Failure?
    ensures r.Ok? ==> q == Ok(Some(r.value), r.rest)
    ensures r.Error? ==> q == Ok(None, input)
  {
    match r
    case Ok(e, rest) => Ok(Some(e), rest)
    case Error => Ok(None, input)
    case Failure => Failure
  }

  datatype Grammar = Grammar(
    propertyDrawer: string -> Res<Elem>,
    blankLines: string -> Res<seq<Elem>>,
    section: string -> Res<Elem>,
    headline: string -> Res<Elem>)

  /** The check after each headline: a successful parse of non-empty input strictly shortens it. */
  ghost predicate Consuming(p: string -> Res<Elem>)
  {
    forall s :: s != [] && p(s).Ok? ==> |p(s).rest| < |s|
  }

  // ---------------------------------------------------------------------------
  // Laws a well-behaved grammar satisfies (used by the lemmas, not by the parser)

  /** A lossless parser returns a tree whose text is exactly the input it consumed. */
  ghost predicate Lossless(p: string -> Res<Elem>)
  {
    forall s :: p(s).Ok? ==> TextOf(p(s).value) + p(s).rest == s
  }

  ghost predicate Builds(p: string -> Res<Elem>, k: Kind)
  {
    forall s :: p(s).Ok? ==> IsNodeOf(p(s).value, k)
  }

  ghost predicate LosslessBlankLines(p: string -> Res<seq<Elem>>)
  {
    forall s :: p(s).Ok? ==> Concat(p(s).value) + p(s).rest == s
  }

  ghost predicate BuildsBlankLines(p: string -> Res<seq<Elem>>)
  {
    forall s :: p(s).Ok? ==> forall e :: e in p(s).value ==> IsTokenOf(e, BlankLine)
  }

  ghost predicate LosslessGrammar(g: Grammar)
  {
    Lossless(g.propertyDrawer) && LosslessBlankLines(g.blankLines) &&
    Lossless(g.section) && Lossless(g.headline)
  }

  ghost predicate WellKinded(g: Grammar)
  {
    Builds(g.propertyDrawer, PropertyDrawer) && BuildsBlankLines(g.blankLines) &&
    Builds(g.section, Section) && Builds(g.headline, Headline)
  }

  // ---------------------------------------------------------------------------
  // Specification

  /** The headline loop: headlines parsed one after another until the input is empty. */
  function HeadlineRun(p: string -> Res<Elem>, s: string): (r: Res<seq<Elem>>)
    requires Consuming(p)
    ensures r.Ok? ==> r.rest == [] && |r.value| <= |s|
    decreases |s|
  {
    if s == [] then Ok([], s)
    else
      var h := p(s);
      if !h.Ok? then Propagate(h)
      else
        var more := HeadlineRun(p, h.rest);
        if !more.Ok? then more
        else Ok([h.value] + more.value, more.rest)
  }

  /** The document node built from `children` once the headline loop has produced `run`. */
  function Finish(children: seq<Elem>, run: Res<seq<Elem>>): Res<Elem>
  {
    if !run.Ok? then Propagate(run)
    else Ok(Node(Document, children + run.value), run.rest)
  }

  /** The children before the headlines: property drawer, blank lines, leading section. */
  function OptChild(o: Option<Elem>): seq<Elem>
  {
    if o.Some? then [o.value] else []
  }

  /**
   * `opt` keeps a lossless parser lossless: whatever it returns, the text of
   * the child it yields (if any) followed by the remaining input is the
   * input; and the child, if any, is of the kind the parser builds.
   */
  lemma OptLossless(p: string -> Res<Elem>, s: string)
    requires Lossless(p)
    ensures Opt(p(s), s).Ok? ==> Concat(OptChild(Opt(p(s), s).value)) + Opt(p(s), s).rest == s
    ensures forall k :: Builds(p, k) && Opt(p(s), s).Ok? ==>
              forall e :: e in OptChild(Opt(p(s), s).value) ==> IsNodeOf(e, k)
  {
    if p(s).Ok? {
      ConcatSingleton(p(s).value);
    } else {
      assert OptChild(None) == [];
    }
  }

  /** What `document_node_base` computes, as a function of the input. */
  function DocumentSpec(g: Grammar, input: string): Res<Elem>
    requires Consuming(g.headline)
  {
    if input == [] then Ok(Node(Document, []), input)
    else DrawerStage(g, input)
  }

  /** An optional property drawer, then the blank-line stage. */
  function DrawerStage(g: Grammar, s: string): Res<Elem>
    requires Consuming(g.headline)
  {
    var pd := Opt(g.propertyDrawer(s), s);
    if !pd.Ok? then Propagate(pd)
    else BlankStage(g, OptChild(pd.value), pd.rest)
  }

  /** Blank lines after the children `pre`; the document ends here when they use up the input. */
  function BlankStage(g: Grammar, pre: seq<Elem>, s: string): Res<Elem>
    requires Consuming(g.headline)
  {
    var bl := g.blankLines(s);
    if !bl.Ok? then Propagate(bl)
    else if bl.rest == [] then Ok(Node(Document, pre + bl.value), bl.rest)
    else SectionStage(g, pre + bl.value, bl.rest)
  }

  /** An optional leading section after the children `pre`, then the headline loop. */
  function SectionStage(g: Grammar, pre: seq<Elem>, s: string): Res<Elem>
    requires Consuming(g.headline)
  {
    var sec := Opt(g.section(s), s);
    if !sec.Ok? then Propagate(sec)
    else Finish(pre + OptChild(sec.value), HeadlineRun(g.headline, sec.rest))
  }

  // ---------------------------------------------------------------------------
  // The parser

  /**
   * `document_node_base`: builds the DOCUMENT node's children step by step
   * and loops over headlines while input remains.
   */
  method DocumentNodeBase(g: Grammar, input: string) returns (r: Res<Elem>)
    requires Consuming(g.headline)
    ensures r == DocumentSpec(g, input)
    ensures input == [] ==> r == Ok(Node(Document, []), [])
    ensures r.Ok? ==> r.rest == [] && IsNodeOf(r.value, Document)
  {
    if input == [] {
      return Ok(Node(Document, []), input);
    }

    var children: seq<Elem> := [];

    var pd := Opt(g.propertyDrawer(input), input);
    if !pd.Ok? {
      return Propagate(pd);
    }
    if pd.value.Some? {
      children := children + [pd.value.value];
    }
    assert children == OptChild(pd.value);

    var bl := g.blankLines(pd.rest);
    if !bl.Ok? {
      return Propagate(bl);
    }
    children := children + bl.value;

    if bl.rest == [] {
      return Ok(Node(Document, children), bl.rest);
    }

    var sec := Opt(g.section(bl.rest), bl.rest);
    if !sec.Ok? {
      return Propagate(sec);
    }
    ghost var pre := children;
    if sec.value.Some? {
      children := children + [sec.value.value];
    }
    assert children == pre + OptChild(sec.value);

    var i := sec.rest;
    while i != []
      invariant DocumentSpec(g, input) == Finish(children, HeadlineRun(g.headline, i))
      decreases |i|
    {
      var h := g.headline(i);
      if !h.Ok? {
        return Propagate(h);
      }
      assert |h.rest| < |i|;
      ghost var more := HeadlineRun(g.headline, h.rest);
      assert more.Ok? ==> children + ([h.value] + more.value) == (children + [h.value]) + more.value;
      i := h.rest;
      children := children + [h.value];
    }

    assert children + [] == children;
    return Ok(Node(Document, children), i);
  }

  // ---------------------------------------------------------------------------
  // Properties

  /** The headline loop is lossless when the headline parser is. */
  lemma {:induction false} HeadlineRunLossless(p: string -> Res<Elem>, s: string)
    requires Consuming(p) && Lossless(p)
    ensures HeadlineRun(p, s).Ok? ==> Concat(HeadlineRun(p, s).value) == s
    decreases |s|
  {
    if s != [] && p(s).Ok? {
      var h := p(s);
      HeadlineRunLossless(p, h.rest);
      var more := HeadlineRun(p, h.rest);
      if more.Ok? {
        ConcatAppend([h.value], more.value);
        ConcatSingleton(h.value);
      }
    }
  }

  /** Every element the headline loop returns is a HEADLINE node, in parse order. */
  lemma {:induction false} HeadlineRunKinds(p: string -> Res<Elem>, s: string)
    requires Consuming(p) && Builds(p, Headline)
    ensures HeadlineRun(p, s).Ok? ==>
              forall i :: 0 <= i < |HeadlineRun(p, s).value| ==> IsNodeOf(HeadlineRun(p, s).value[i], Headline)
    ensures HeadlineRun(p, s).Ok? && s != [] ==>
              p(s).Ok? && HeadlineRun(p, s).value == [p(s).value] + HeadlineRun(p, p(s).rest).value
    decreases |s|
  {
    if s != [] && p(s).Ok? {
      HeadlineRunKinds(p, p(s).rest);
    }
  }

  lemma SectionStageLossless(g: Grammar, pre: seq<Elem>, s: string)
    requires Consuming(g.headline) && LosslessGrammar(g)
    ensures SectionStage(g, pre, s).Ok? ==> TextOf(SectionStage(g, pre, s).value) == Concat(pre) + s
  {
    var sec := Opt(g.section(s), s);
    if sec.Ok? {
      var secc := OptChild(sec.value);
      OptLossless(g.section, s);
      var run := HeadlineRun(g.headline, sec.rest);
      if run.Ok? {
        HeadlineRunLossless(g.headline, sec.rest);
        ConcatAppend(pre, secc);
        ConcatAppend(pre + secc, run.value);
      }
    }
  }

  lemma BlankStageLossless(g: Grammar, pre: seq<Elem>, s: string)
    requires Consuming(g.headline) && LosslessGrammar(g)
    ensures BlankStage(g, pre, s).Ok? ==> TextOf(BlankStage(g, pre, s).value) == Concat(pre) + s
  {
    var bl := g.blankLines(s);
    if bl.Ok? {
      ConcatAppend(pre, bl.value);
      if bl.rest != [] {
        SectionStageLossless(g, pre + bl.value, bl.rest);
      }
    }
  }

  /**
   * With lossless sub-parsers a parsed document spans the whole input: its
   * text is the input and its length is the input's byte length.
   */
  lemma DocumentLossless(g: Grammar, input: string)
    requires Consuming(g.headline) && LosslessGrammar(g)
    ensures DocumentSpec(g, input).Ok? ==>
              DocumentSpec(g, input).rest == [] &&
              TextOf(DocumentSpec(g, input).value) == input &&
              Len(DocumentSpec(g, input).value) == Utf8Len(input)
  {
    var r := DocumentSpec(g, input);
    if r.Ok? {
      if input != [] {
        var pd := Opt(g.propertyDrawer(input), input);
        OptLossless(g.propertyDrawer, input);
        BlankStageLossless(g, OptChild(pd.value), pd.rest);
        DocumentEndsInput(g, input);
      }
      LenIsTextLen(r.value);
    }
  }

  /** Both ways out of a successful parse leave no input behind. */
  lemma DocumentEndsInput(g: Grammar, input: string)
    requires Consuming(g.headline)
    ensures DocumentSpec(g, input).Ok? ==> DocumentSpec(g, input).rest == []
  {
  }

  /** Position of a child in the fixed order of a document's children. */
  function Rank(e: Elem): nat
  {
    if IsNodeOf(e, PropertyDrawer) then 0
    else if IsTokenOf(e, BlankLine) then 1
    else if IsNodeOf(e, Section) then 2
    else if IsNodeOf(e, Headline) then 3
    else 4
  }

  /**
   * The children of a document: an optional property drawer, blank lines, an
   * optional section, then headlines; nothing else, and none out of order.
   */
  predicate DocumentOrder(cs: seq<Elem>)
  {
    (forall i :: 0 <= i < |cs| ==> Rank(cs[i]) < 4) &&
    (forall i, j :: 0 <= i < j < |cs| ==> Rank(cs[i]) <= Rank(cs[j])) &&
    (forall i, j :: 0 <= i < j < |cs| && Rank(cs[i]) == Rank(cs[j]) ==> Rank(cs[i]) == 1 || Rank(cs[i]) == 3)
  }

  /** All elements of `cs` have rank `k`. */
  predicate AllRank(cs: seq<Elem>, k: nat)
  {
    forall i :: 0 <= i < |cs| ==> Rank(cs[i]) == k
  }

  /** Appending a block of one rank keeps the order when that rank is not below the earlier ones. */
  lemma OrderAppend(a: seq<Elem>, b: seq<Elem>, k: nat)
    requires DocumentOrder(a) && AllRank(b, k) && k < 4
    requires forall i :: 0 <= i < |a| ==> Rank(a[i]) < k
    requires k != 1 && k != 3 ==> |b| <= 1
    ensures DocumentOrder(a + b)
  {
    var c := a + b;
    forall i, j | 0 <= i < j < |c|
      ensures Rank(c[i]) <= Rank(c[j])
      ensures Rank(c[i]) == Rank(c[j]) ==> Rank(c[i]) == 1 || Rank(c[i]) == 3
    {
      if j < |a| {
        assert c[i] == a[i] && c[j] == a[j];
      } else if i < |a| {
        assert c[i] == a[i] && c[j] == b[j - |a|];
      } else {
        assert c[i] == b[i - |a|] && c[j] == b[j - |a|];
      }
    }
  }

  lemma SectionStageOrder(g: Grammar, pre: seq<Elem>, s: string)
    requires Consuming(g.headline) && WellKinded(g)
    requires DocumentOrder(pre) && forall i :: 0 <= i < |pre| ==> Rank(pre[i]) < 2
    ensures SectionStage(g, pre, s).Ok? ==> DocumentOrder(SectionStage(g, pre, s).value.children)
  {
    var sec := Opt(g.section(s), s);
    if sec.Ok? {
      var secc := OptChild(sec.value);
      assert AllRank(secc, 2);
      OrderAppend(pre, secc, 2);
      var run := HeadlineRun(g.headline, sec.rest);
      if run.Ok? {
        HeadlineRunKinds(g.headline, sec.rest);
        assert AllRank(run.value, 3);
        OrderAppend(pre + secc, run.value, 3);
      }
    }
  }

  lemma BlankStageOrder(g: Grammar, pre: seq<Elem>, s: string)
    requires Consuming(g.headline) && WellKinded(g)
    requires DocumentOrder(pre) && forall i :: 0 <= i < |pre| ==> Rank(pre[i]) < 1
    ensures BlankStage(g, pre, s).Ok? ==> DocumentOrder(BlankStage(g, pre, s).value.children)
  {
    var bl := g.blankLines(s);
    if bl.Ok? {
      assert AllRank(bl.value, 1) by {
        forall i | 0 <= i < |bl.value|
          ensures Rank(bl.value[i]) == 1
        {
          assert bl.value[i] in bl.value;
        }
      }
      OrderAppend(pre, bl.value, 1);
      if bl.rest != [] {
        SectionStageOrder(g, pre + bl.value, bl.rest);
      }
    }
  }

  /**
   * A well-kinded grammar yields children in the fixed order: optional
   * property drawer, blank lines, optional section, then the headlines the
   * loop parsed, in that order.
   */
  lemma DocumentChildrenOrder(g: Grammar, input: string)
    requires Consuming(g.headline) && WellKinded(g)
    ensures DocumentSpec(g, input).Ok? ==> DocumentOrder(DocumentSpec(g, input).value.children)
  {
    if input != [] {
      var pd := Opt(g.propertyDrawer(input), input);
      if pd.Ok? {
        var pdc := OptChild(pd.value);
        assert AllRank(pdc, 0);
        OrderAppend([], pdc, 0);
        assert [] + pdc == pdc;
        BlankStageOrder(g, pdc, pd.rest);
      }
    }
  }

  /**
   * When no property drawer is recognised and the blank-line parser takes the
   * whole input, the document holds exactly those BLANK_LINE tokens, which
   * together carry the input's text.
   */
  lemma BlankOnlyDocument(g: Grammar, input: string)
    requires Consuming(g.headline) && LosslessGrammar(g) && WellKinded(g)
    requires input != [] && g.propertyDrawer(input).Error?
    requires g.blankLines(input).Ok? && g.blankLines(input).rest == []
    ensures DocumentSpec(g, input) == Ok(Node(Document, g.blankLines(input).value), [])
    ensures forall i :: 0 <= i < |DocumentSpec(g, input).value.children| ==>
              IsTokenOf(DocumentSpec(g, input).value.children[i], BlankLine)
    ensures Concat(DocumentSpec(g, input).value.children) == input
  {
    var bs := g.blankLines(input).value;
    assert OptChild(None) + bs == bs;
    forall i | 0 <= i < |bs|
      ensures IsTokenOf(bs[i], BlankLine)
    {
      assert bs[i] in bs;
    }
  }
}
