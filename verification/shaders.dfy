/**
 Octane shader graphs as seen from one material channel, and the lookup that
 digs the image filename out of them.

 The lookup is a fixed pipeline: it peels at most one Multiply wrapper, then at
 most one Mix, then at most one Colour-Correction, then at most one Invert, and
 reports a filename only if what is left is an Image-texture node. The model of
 that pipeline (`GetTexture`) follows the script step by step; `ChainOf` and
 `Accepted` give an independent description of the same rule in terms of the
 whole chain of wrappers under a link, and `GetTextureByChain` proves the two
 agree on every input.
 */
module Shaders {
  import opened Wrappers

  /** A shader node. Each wrapper exposes only the one link the lookup follows
      (the first texture of a Multiply or Mix, the texture of a Colour-Correction
      or Invert); `Other` is any node type the lookup does not recognise. */
  datatype Shader =
    | Multiply(inner: Option<Shader>)
    | Mix(inner: Option<Shader>)
    | ColorCorrect(inner: Option<Shader>)
    | Invert(inner: Option<Shader>)
    | Image(file: string)
    | Other(typeId: int)

  /** The four wrapper types, in the order in which the lookup peels them. */
  datatype Wrapper = MultiplyWrap | MixWrap | ColorCorrectWrap | InvertWrap

  /** The type id the script reads from a node, with the Octane ids kept opaque. */
  datatype Kind = WrapperKind(w: Wrapper) | ImageKind | OtherKind(id: int)

  function KindOf(s: Shader): Kind {
    match s
    case Multiply(_) => WrapperKind(MultiplyWrap)
    case Mix(_) => WrapperKind(MixWrap)
    case ColorCorrect(_) => WrapperKind(ColorCorrectWrap)
    case Invert(_) => WrapperKind(InvertWrap)
    case Image(_) => ImageKind
    case Other(id) => OtherKind(id)
  }

  /** Position of a wrapper in the peeling order. */
  function Rank(w: Wrapper): (r: nat)
    ensures r < StageCount
  {
    match w
    case MultiplyWrap => 0
    case MixWrap => 1
    case ColorCorrectWrap => 2
    case InvertWrap => 3
  }

  const StageCount: nat := 4

  /** The wrapper that stage `i` of the pipeline peels. */
  function StageWrapper(i: nat): (w: Wrapper)
    requires i < StageCount
    ensures Rank(w) == i
  {
    if i == 0 then MultiplyWrap
    else if i == 1 then MixWrap
    else if i == 2 then ColorCorrectWrap
    else InvertWrap
  }

  /*------------------------------------------------------------------------
    The pipeline, as the script runs it
  ------------------------------------------------------------------------*/

  /** The script's two variables between stages: the shader it holds (empty
      once a wrapper's link turned out empty) and the type id it last read.
      After an empty link the type id is left at the wrapper just peeled. */
  datatype Cursor = Cursor(node: Option<Shader>, kind: Kind)

  /** What holds of the cursor before stage `stage`: a held node's type id is
      the one recorded, and an empty cursor still records a wrapper that an
      earlier stage peeled. */
  predicate Coherent(c: Cursor, stage: nat) {
    && (c.node.Some? ==> c.kind == KindOf(c.node.value))
    && (c.node.None? ==> c.kind.WrapperKind? && Rank(c.kind.w) < stage)
  }

  /** The cursor on a non-empty channel link, before any stage has run. */
  function Start(s: Shader): (c: Cursor)
    ensures Coherent(c, 0)
  {
    Cursor(Some(s), KindOf(s))
  }

  /** Stage `i`: if the type id last read is this stage's wrapper, follow its
      link; read the new node's type only when the link is not empty. */
  function Peel(i: nat, c: Cursor): (r: Cursor)
    requires i < StageCount && Coherent(c, i)
    ensures Coherent(r, i + 1)
    ensures c.kind != WrapperKind(StageWrapper(i)) ==> r == c
    ensures c.kind == WrapperKind(StageWrapper(i)) ==> r.node == c.node.value.inner
  {
    if c.kind == WrapperKind(StageWrapper(i)) then
      var next := c.node.value.inner;
      if next.Some? then Cursor(next, KindOf(next.value)) else Cursor(None, c.kind)
    else
      c
  }

  /** The final test: the filename, if the last type id read is an Image's. */
  function Finish(c: Cursor): (r: Option<string>)
    requires Coherent(c, StageCount)
    ensures r.Some? <==> c.node.Some? && c.node.value.Image?
    ensures r.Some? ==> r.value == c.node.value.file
  {
    if c.kind == ImageKind then Some(c.node.value.file) else None
  }

  /** Stages `i` to the last, then the final test. */
  function Pipeline(i: nat, c: Cursor): Option<string>
    requires i <= StageCount && Coherent(c, i)
    decreases StageCount - i
  {
    if i == StageCount then Finish(c) else Pipeline(i + 1, Peel(i, c))
  }

  /** The filename behind a channel link, or `None`. */
  function GetTexture(link: Option<Shader>): Option<string> {
    match link
    case None => None
    case Some(s) => Pipeline(0, Start(s))
  }

  /*------------------------------------------------------------------------
    The same rule, stated on the whole chain under a link
  ------------------------------------------------------------------------*/

  /** How a chain of wrappers ends. */
  datatype End = EmptyLink | ImageEnd(file: string) | OtherEnd(id: int)

  /** Every wrapper met from the link downwards, outermost first, and what
      sits under the innermost one. */
  datatype Chain = Chain(wrappers: seq<Wrapper>, end: End)

  function Wrap(w: Wrapper, c: Chain): Chain {
    Chain([w] + c.wrappers, c.end)
  }

  function ChainOf(link: Option<Shader>): Chain
    decreases link
  {
    match link
    case None => Chain([], EmptyLink)
    case Some(Multiply(n)) => Wrap(MultiplyWrap, ChainOf(n))
    case Some(Mix(n)) => Wrap(MixWrap, ChainOf(n))
    case Some(ColorCorrect(n)) => Wrap(ColorCorrectWrap, ChainOf(n))
    case Some(Invert(n)) => Wrap(InvertWrap, ChainOf(n))
    case Some(Image(f)) => Chain([], ImageEnd(f))
    case Some(Other(id)) => Chain([], OtherEnd(id))
  }

  /** The wrappers appear in peeling order, each at most once, and none of
      them belongs to a stage before `from`. */
  predicate Ordered(ws: seq<Wrapper>, from: nat) {
    && (forall j :: 0 <= j < |ws| ==> from <= Rank(ws[j]))
    && (forall j, k :: 0 <= j < k < |ws| ==> Rank(ws[j]) < Rank(ws[k]))
  }

  /** The filename a chain yields under the rule: an ordered run of wrappers
      over an Image node. */
  function Accepted(c: Chain, from: nat): Option<string> {
    if c.end.ImageEnd? && Ordered(c.wrappers, from) then Some(c.end.file) else None
  }

  /*------------------------------------------------------------------------
    The pipeline agrees with the rule
  ------------------------------------------------------------------------*/

  lemma OrderedCons(w: Wrapper, ws: seq<Wrapper>, i: nat)
    requires Rank(w) == i
    ensures Ordered([w] + ws, i) <==> Ordered(ws, i + 1)
  {
    var s := [w] + ws;
    if Ordered(ws, i + 1) {
      forall j, k | 0 <= j < k < |s|
        ensures Rank(s[j]) < Rank(s[k])
      {
        assert s[k] == ws[k - 1];
        if j > 0 { assert s[j] == ws[j - 1]; }
      }
      forall j | 0 <= j < |s|
        ensures i <= Rank(s[j])
      {
        if j > 0 { assert s[j] == ws[j - 1]; }
      }
    }
    if Ordered(s, i) {
      forall j | 0 <= j < |ws|
        ensures i + 1 <= Rank(ws[j])
      {
        assert s[j + 1] == ws[j];
        assert Rank(s[0]) < Rank(s[j + 1]);
      }
      forall j, k | 0 <= j < k < |ws|
        ensures Rank(ws[j]) < Rank(ws[k])
      {
        assert s[j + 1] == ws[j] && s[k + 1] == ws[k];
      }
    }
  }

  /** A stage that finds a different wrapper (or none) in front leaves the
      rule's verdict unchanged when the rule starts one stage later. */
  lemma OrderedSkip(ws: seq<Wrapper>, i: nat)
    requires |ws| > 0 ==> Rank(ws[0]) != i
    ensures Ordered(ws, i) <==> Ordered(ws, i + 1)
  {
    if Ordered(ws, i) && |ws| > 0 {
      forall j | 0 <= j < |ws|
        ensures i + 1 <= Rank(ws[j])
      {
        if j > 0 { assert Rank(ws[0]) < Rank(ws[j]); }
      }
    }
  }

  /** Once a wrapper's link was empty, no later stage moves the cursor and the
      final test fails. */
  lemma {:induction false} EmptyCursorFinds(i: nat, c: Cursor)
    requires i <= StageCount && Coherent(c, i) && c.node.None?
    ensures Pipeline(i, c) == None
    decreases StageCount - i
  {
    if i < StageCount {
      assert Peel(i, c) == c;
      EmptyCursorFinds(i + 1, c);
    }
  }

  /** From stage `i` on, the pipeline yields exactly what the rule accepts of
      the chain under the held node when only stages `i` onwards may be used. */
  lemma {:induction false} PipelineByChain(i: nat, s: Shader)
    requires i <= StageCount
    ensures Pipeline(i, Start(s)) == Accepted(ChainOf(Some(s)), i)
    decreases StageCount - i
  {
    var c := Start(s);
    var ch := ChainOf(Some(s));
    if i == StageCount {
      if ch.wrappers != [] {
        assert Rank(ch.wrappers[0]) < i;
      }
    } else if c.kind == WrapperKind(StageWrapper(i)) {
      var w := StageWrapper(i);
      var inner := s.inner;
      assert ch == Wrap(w, ChainOf(inner));
      OrderedCons(w, ChainOf(inner).wrappers, i);
      match inner
      case None =>
        EmptyCursorFinds(i + 1, Peel(i, c));
      case Some(t) =>
        assert Peel(i, c) == Start(t);
        PipelineByChain(i + 1, t);
    } else {
      assert Peel(i, c) == c;
      PipelineByChain(i + 1, s);
      OrderedSkip(ch.wrappers, i);
    }
  }

  /** GetTexture returns a filename exactly when the chain under the link is
      an ordered run of at most one Multiply, Mix, Colour-Correction and
      Invert, in that order, over an Image node, and the filename is that
      node's. An empty link, an empty wrapper link, a repeated or out-of-order
      wrapper, or any other node type yields `None`. */
  lemma GetTextureByChain(link: Option<Shader>)
    ensures GetTexture(link).Some? <==>
              ChainOf(link).end.ImageEnd? && Ordered(ChainOf(link).wrappers, 0)
    ensures GetTexture(link).Some? ==> ChainOf(link).end == ImageEnd(GetTexture(link).value)
    ensures GetTexture(link) == Accepted(ChainOf(link), 0)
  {
    if link.Some? {
      PipelineByChain(0, link.value);
    }
  }

  lemma {:induction false} OrderedLength(ws: seq<Wrapper>, from: nat)
    requires from <= StageCount && Ordered(ws, from)
    ensures |ws| <= StageCount - from
    decreases |ws|
  {
    if |ws| > 0 {
      var rest := ws[1..];
      assert Ordered(rest, Rank(ws[0]) + 1) by {
        forall j | 0 <= j < |rest|
          ensures Rank(ws[0]) + 1 <= Rank(rest[j])
        {
          assert rest[j] == ws[j + 1];
        }
        forall j, k | 0 <= j < k < |rest|
          ensures Rank(rest[j]) < Rank(rest[k])
        {
          assert rest[j] == ws[j + 1] && rest[k] == ws[k + 1];
        }
      }
      OrderedLength(rest, Rank(ws[0]) + 1);
    }
  }

  /** A successful lookup has followed at most four wrapper links, and never
      the same wrapper type twice. */
  lemma GetTextureDepth(link: Option<Shader>, f: string)
    requires GetTexture(link) == Some(f)
    ensures |ChainOf(link).wrappers| <= StageCount
    ensures forall j, k :: 0 <= j < k < |ChainOf(link).wrappers| ==>
              ChainOf(link).wrappers[j] != ChainOf(link).wrappers[k]
    ensures ChainOf(link).end == ImageEnd(f)
  {
    GetTextureByChain(link);
    OrderedLength(ChainOf(link).wrappers, 0);
  }

  /*------------------------------------------------------------------------
    The cases the lookup is meant for, one by one
  ------------------------------------------------------------------------*/

  /** An empty channel link yields nothing; a bare Image node yields its file. */
  lemma GetTextureDirect(f: string)
    ensures GetTexture(None) == None
    ensures GetTexture(Some(Image(f))) == Some(f)
  {
    GetTextureByChain(Some(Image(f)));
  }

  /** All four wrappers, in order, over an Image node are peeled. */
  lemma GetTextureFullChain(f: string)
    ensures GetTexture(Some(Multiply(Some(Mix(Some(ColorCorrect(Some(Invert(Some(Image(f)))))))))))
            == Some(f)
  {
    var link := Some(Multiply(Some(Mix(Some(ColorCorrect(Some(Invert(Some(Image(f))))))))));
    GetTextureByChain(link);
    assert ChainOf(Some(Invert(Some(Image(f))))).wrappers == [InvertWrap];
    assert ChainOf(Some(ColorCorrect(Some(Invert(Some(Image(f))))))).wrappers
      == [ColorCorrectWrap, InvertWrap];
    assert ChainOf(Some(Mix(Some(ColorCorrect(Some(Invert(Some(Image(f))))))))).wrappers
      == [MixWrap, ColorCorrectWrap, InvertWrap];
    assert ChainOf(link).wrappers == [MultiplyWrap, MixWrap, ColorCorrectWrap, InvertWrap];
  }

  /** An out-of-order nesting, a repeated wrapper, and a wrapper with an empty
      link all yield nothing. */
  lemma GetTextureRejects(f: string)
    ensures GetTexture(Some(Invert(Some(Multiply(Some(Image(f))))))) == None
    ensures GetTexture(Some(Mix(Some(Mix(Some(Image(f))))))) == None
    ensures GetTexture(Some(Multiply(None))) == None
  {
    var outOfOrder := Some(Invert(Some(Multiply(Some(Image(f))))));
    GetTextureByChain(outOfOrder);
    assert ChainOf(Some(Multiply(Some(Image(f))))).wrappers == [MultiplyWrap];
    assert ChainOf(outOfOrder).wrappers == [InvertWrap, MultiplyWrap];
    var repeated := Some(Mix(Some(Mix(Some(Image(f))))));
    GetTextureByChain(repeated);
    assert ChainOf(repeated).wrappers == [MixWrap, MixWrap];
    GetTextureByChain(Some(Multiply(None)));
  }
}
