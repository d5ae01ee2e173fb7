/** Writing out a map without a store: the nodes are treated as over a store that holds nothing. */
module Unbacked {
  import opened Bytes
  import opened Tree
  import opened Codec
  import opened Storage
  import opened Nodes
  import opened Shapes
  import opened Merkle
  import opened Flushing

  /** A map without a store. */
  ghost function Detached(): Env {
    Env(false, Complete, map[])
  }

  /** A store that holds nothing and is never read. */
  ghost function Nowhere(): Env {
    Env(true, Unread, map[])
  }

  /** What may be lacking from a store, and does not collide with anything in it, is stored as far as the store can tell. */
  lemma {:induction false} StoredLoosely(env: Env, t: Tree, ps: set<bytes>)
    requires env.trust != Complete && Addressed(env.store, ps) && Storable(env.trust, t) && CollisionFree(ps) && Preimages(t) <= ps
    ensures Stored(env, t)
  {
    if t.Inner? {
      assert InnerPreimage(Hashes(t.kids)) in Preimages(t);
      forall i | 0 <= i < |t.kids| ensures Stored(env, t.kids[i]) {
        KidInputs(t, i);
        StoredLoosely(env, t.kids[i], ps);
      }
    } else if t.Leaf? {
      assert LeafPreimage(t.kind, t.item) in Preimages(t);
    }
  }

  /** No child is known by hash only. */
  ghost predicate AllLoaded(s: Shape) {
    !s.SStub? && (s.SInner? ==> forall i :: 0 <= i < |s.kids| ==> AllLoaded(s.kids[i]))
  }

  lemma {:induction false} WholeIsLoaded(s: Shape)
    requires Rep(Detached(), s) && Whole(TreeOf(s))
    ensures AllLoaded(s)
    decreases s
  {
    if s.SInner? {
      forall i | 0 <= i < |s.kids| ensures AllLoaded(s.kids[i]) {
        assert Whole(Trees(s.kids)[i]);
        WholeIsLoaded(s.kids[i]);
      }
    }
  }

  /** A loaded subtree may be put over such a store. */
  lemma {:induction false} OverStore(env: Env, s: Shape, ps: set<bytes>)
    requires env.backed && env.trust != Complete && Addressed(env.store, ps) && CollisionFree(ps)
    requires Rep(Detached(), s) && AllLoaded(s) && Storable(env.trust, TreeOf(s)) && Preimages(TreeOf(s)) <= ps
    ensures Rep(env, s)
    decreases s
  {
    StoredLoosely(env, TreeOf(s), ps);
    if s.SInner? {
      forall i | 0 <= i < |s.kids| ensures Rep(env, s.kids[i]) {
        KidInputs(TreeOf(s), i);
        assert Storable(env.trust, Trees(s.kids)[i]);
        OverStore(env, s.kids[i], ps);
      }
    }
  }

  lemma {:induction false} RootOverNowhere(s: Shape, ps: set<bytes>)
    requires s.SInner? && s.node.dirty && Rep(Detached(), s) && AllLoaded(s) && CollisionFree(ps) && Sources(Unread, TreeOf(s), ps)
    ensures Rep(Nowhere(), s)
  {
    forall i | 0 <= i < |s.kids| ensures Rep(Nowhere(), s.kids[i]) {
      KidSources(Unread, Trees(s.kids), i, ps);
      OverStore(Nowhere(), s.kids[i], ps);
    }
  }

  /** And back again. */
  lemma {:induction false} WithoutStore(env: Env, s: Shape)
    requires Rep(env, s) && AllLoaded(s)
    ensures Rep(Detached(), s)
    decreases s
  {
    if s.SInner? {
      forall i | 0 <= i < |s.kids| ensures Rep(Detached(), s.kids[i]) {
        WithoutStore(env, s.kids[i]);
      }
    }
  }

  /** Children that are gone are known by hash only. */
  ghost function Forgotten(kids: seq<Shape>): (ks: seq<Shape>)
    ensures |ks| == |kids|
    ensures forall i :: 0 <= i < |kids| ==> ks[i] == if kids[i].SNil? then SNil else SStub(Stub(HashOf(TreeOf(kids[i]))))
  {
    seq(|kids|, i requires 0 <= i < |kids| => if kids[i].SNil? then SNil else SStub(Stub(HashOf(TreeOf(kids[i])))))
  }

  lemma {:induction false} ForgottenRep(env: Env, n: InnerNode, kids: seq<Shape>)
    requires Rep(env, SInner(n, kids)) && Bared(SInner(n, kids))
    ensures var s := SInner(n, Forgotten(kids));
      Rep(Detached(), s) && Distinct(s) && TreeOf(s) == Stubbed(Inner(Trees(kids))) && Foot(s) == {n}
  {
    hide HashOf;
    var ks := Forgotten(kids);
    forall i | 0 <= i < |kids| ensures (kids[i].SNil? <==> TreeOf(kids[i]).Nil?) && Foot(ks[i]) == {} {
      RepNil(env, kids[i]);
    }
    assert Trees(ks) == Stubbed(Inner(Trees(kids))).kids by {
      forall i | 0 <= i < |kids| ensures TreeOf(ks[i]) == Stubbed(Inner(Trees(kids))).kids[i] {
      }
    }
    StubbedHash(Trees(kids));
    assert forall i :: 0 <= i < |ks| ==> HashOf(TreeOf(ks[i])) == HashOf(TreeOf(kids[i])) by { StubHashes(kids); }
  }

  lemma {:induction false} StubHashes(kids: seq<Shape>)
    requires forall i :: 0 <= i < |kids| ==> (kids[i].SNil? <==> TreeOf(kids[i]).Nil?)
    ensures forall i :: 0 <= i < |kids| ==> HashOf(TreeOf(Forgotten(kids)[i])) == HashOf(TreeOf(kids[i]))
  {
  }
}
