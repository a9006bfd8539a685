/** Left spines: the way from the root of a subtree down to its leftmost node. */
module GTreeSpine {
  import opened GTreeShape
  import opened GTreeFocus

  ghost predicate LeftOnly(sc: Ctx) {
    sc == Top || (sc.InLeft? && LeftOnly(sc.up))
  }

  /** Context `sc` placed in the hole of `c`. */
  ghost function Append(c: Ctx, sc: Ctx): Ctx
    requires LeftOnly(sc)
  {
    if sc == Top then c else InLeft(Append(c, sc.up), sc.n, sc.k, sc.v, sc.r)
  }

  /** The height of the whole when the hole of `sc` has height `h`. */
  ghost function OuterHeight(sc: Ctx, h: int): int {
    if sc == Top then h else OuterHeight(sc.up, AboveHeight(sc, h))
  }

  ghost function SpineNodes(sc: Ctx): seq<Ptr> {
    if sc == Top then [] else SpineNodes(sc.up) + [sc.n]
  }

  lemma {:induction false} AppendPlug(c: Ctx, sc: Ctx, t: Tree)
    requires LeftOnly(sc)
    ensures Plug(Append(c, sc), t) == Plug(c, Plug(sc, t))
    decreases sc
  {
    if sc != Top {
      AppendPlug(c, sc.up, Above(sc, t));
    }
  }

  lemma {:induction false} AppendPath(c: Ctx, sc: Ctx)
    requires LeftOnly(sc)
    ensures PathOf(Append(c, sc)) == PathOf(c) + SpineNodes(sc)
    decreases sc
  {
    if sc == Top {
      assert PathOf(c) + [] == PathOf(c);
    } else {
      AppendPath(c, sc.up);
    }
  }

  lemma {:induction false} AppendEnds(c: Ctx, sc: Ctx)
    requires LeftOnly(sc)
    ensures Pred(Append(c, sc), NULL) == Pred(c, NULL) && Succ(Append(c, sc), NULL) == Succ(sc, Succ(c, NULL))
    ensures forall p :: Pred(sc, p) == p
    decreases sc
  {
    if sc != Top {
      AppendEnds(c, sc.up);
    }
  }

  lemma {:induction false} AppendNodes(c: Ctx, sc: Ctx)
    requires LeftOnly(sc)
    ensures CtxNodes(Append(c, sc)) == CtxNodes(c) + CtxNodes(sc)
    decreases sc
  {
    if sc != Top {
      AppendNodes(c, sc.up);
    }
  }

  lemma {:induction false} AppendApart(c: Ctx, sc: Ctx)
    requires LeftOnly(sc) && CtxApart(c) && CtxApart(sc) && CtxNodes(c) !! CtxNodes(sc)
    ensures CtxApart(Append(c, sc))
    decreases sc
  {
    if sc != Top {
      AppendApart(c, sc.up);
      AppendNodes(c, sc.up);
    }
  }

  lemma {:induction false} AppendBalanced(c: Ctx, sc: Ctx, h: int)
    requires LeftOnly(sc) && CtxBalanced(sc, h) && CtxBalanced(c, OuterHeight(sc, h))
    ensures CtxBalanced(Append(c, sc), h)
    decreases sc
  {
    if sc != Top {
      AppendBalanced(c, sc.up, AboveHeight(sc, h));
    }
  }

  lemma {:induction false} AppendRep(m: Memory, c: Ctx, sc: Ctx, root: Ptr, h: int)
    requires LeftOnly(sc) && CtxRep(m, sc, root, h, Pred(c, NULL), Succ(c, NULL))
    requires CtxRep(m, c, RootOf(sc, root), OuterHeight(sc, h), NULL, NULL)
    ensures CtxRep(m, Append(c, sc), root, h, NULL, NULL)
    decreases sc
  {
    hide Linked, Rep;
    if sc != Top {
      AppendEnds(c, sc.up);
      AppendRep(m, c, sc.up, sc.n, AboveHeight(sc, h));
    }
  }

  /** Above a subtree that is there, a left spine does not see what precedes it. */
  lemma {:induction false} Rebase(m: Memory, sc: Ctx, root: Ptr, h: int, p: Ptr, p': Ptr, s: Ptr)
    requires LeftOnly(sc) && root != NULL && CtxRep(m, sc, root, h, p, s)
    ensures CtxRep(m, sc, root, h, p', s)
    decreases sc
  {
    hide Rep;
    if sc != Top {
      Rebase(m, sc.up, sc.n, AboveHeight(sc, h), p, p', s);
    }
  }

  lemma {:induction false} SpineHeight(sc: Ctx, t: Tree)
    requires LeftOnly(sc)
    ensures OuterHeight(sc, Height(t)) == Height(Plug(sc, t))
    decreases sc
  {
    if sc != Top {
      SpineHeight(sc.up, Above(sc, t));
    }
  }

  lemma {:induction false} SpineBefore(sc: Ctx)
    requires LeftOnly(sc)
    ensures Before(sc) == []
    decreases sc
  {
    if sc != Top {
      SpineBefore(sc.up);
    }
  }

  /** In subtree `r`, preceded by `n` and followed by `s`, the spine leads to subtree `u`. */
  ghost predicate OnSpine(m: Memory, r: Tree, sc: Ctx, u: Tree, n: Ptr, s: Ptr) {
    && LeftOnly(sc) && u.Branch? && Plug(sc, u) == r
    && CtxRep(m, sc, u.n, Height(u), n, s) && Rep(m, u, n, Succ(sc, s))
    && SpineSound(sc, u)
  }

  ghost predicate SpineSound(sc: Ctx, u: Tree) {
    && CtxApart(sc) && Apart(u) && Nodes(u) !! CtxNodes(sc)
    && CtxBalanced(sc, Height(u)) && Balanced(u)
  }

  lemma SpineSoundDown(sc: Ctx, u: Tree)
    requires u.Branch? && SpineSound(sc, u)
    ensures SpineSound(InLeft(sc, u.n, u.k, u.v, u.r), u.l)
  {
  }

  lemma SpineDown(m: Memory, r: Tree, sc: Ctx, u: Tree, n: Ptr, s: Ptr)
    requires OnSpine(m, r, sc, u, n, s) && u.l.Branch?
    ensures OnSpine(m, r, InLeft(sc, u.n, u.k, u.v, u.r), u.l, n, s)
  {
    hide Rep, SpineSound;
    SpineSoundDown(sc, u);
    AppendEnds(Top, sc);
    Open(m, u, n, Succ(sc, s));
    Open(m, u.l, n, u.n);
  }
}
