/** The registry's procedure tree as a value: what `HealthChecksImpl`
    holds under its root composite, the paths that name its nodes, and the
    three path operations of the registry (register, unregister, look up)
    stated on that value. */
module Trees {
  import opened Wrappers
  import opened Leaf
  import JavaStrings

  datatype Tree = TLeaf(procedure: DefaultProcedure) | TComposite(children: map<string, Tree>)

  /** A path of segments from the root. */
  type Path = seq<string>

  /** The node at path `p`, if there is one. */
  function At(t: Tree, p: Path): Option<Tree>
    decreases |p|
  {
    if p == [] then Some(t)
    else if t.TComposite? && p[0] in t.children then At(t.children[p[0]], p[1..])
    else None
  }

  predicate IsCompositeAt(t: Tree, p: Path) {
    At(t, p).Some? && At(t, p).value.TComposite?
  }

  /** What a path names, without the subtree: nothing, a leaf, a composite. */
  datatype NodeKind = Absent | LeafKind(procedure: DefaultProcedure) | CompositeKind

  function Kind(o: Option<Tree>): NodeKind {
    match o
    case None => Absent
    case Some(TLeaf(p)) => LeafKind(p)
    case Some(TComposite(_)) => CompositeKind
  }

  /** Puts `o` (or removes, for `None`) under key `k` of the composite at
      path `p`. */
  function Update(t: Tree, p: Path, k: string, o: Option<Tree>): Tree
    requires IsCompositeAt(t, p)
    decreases |p|
  {
    if p == [] then TComposite(if o.Some? then t.children[k := o.value] else t.children - {k})
    else TComposite(t.children[p[0] := Update(t.children[p[0]], p[1..], k, o)])
  }

  /** Looking up `p + q` is looking up `q` below the node at `p`. */
  lemma {:induction false} AtAppend(t: Tree, p: Path, q: Path)
    ensures At(t, p + q) == if At(t, p).Some? then At(At(t, p).value, q) else None
    decreases |p|
  {
    if p == [] {
      assert p + q == q;
    } else {
      assert (p + q)[0] == p[0] && (p + q)[1..] == p[1..] + q;
      if t.TComposite? && p[0] in t.children {
        AtAppend(t.children[p[0]], p[1..], q);
      }
    }
  }

  /** Nodes above the updated key: still composites, each updated below. */
  lemma {:induction false} AtUpdateAbove(t: Tree, p: Path, k: string, o: Option<Tree>, r: Path)
    requires IsCompositeAt(t, p) && r <= p
    ensures IsCompositeAt(t, r)
    ensures IsCompositeAt(At(t, r).value, p[|r|..])
    ensures At(Update(t, p, k, o), r) == Some(Update(At(t, r).value, p[|r|..], k, o))
    decreases |r|
  {
    AtAppend(t, r, p[|r|..]);
    assert r + p[|r|..] == p;
    if r != [] {
      assert p[0] == r[0] && p[1..][|r[1..]|..] == p[|r|..];
      assert r[1..] <= p[1..];
      AtUpdateAbove(t.children[p[0]], p[1..], k, o, r[1..]);
    }
  }

  /** Nodes at or below the updated key: those of `o`. */
  lemma {:induction false} AtUpdateBelow(t: Tree, p: Path, k: string, o: Option<Tree>, s: Path)
    requires IsCompositeAt(t, p)
    ensures At(Update(t, p, k, o), p + [k] + s) == if o.Some? then At(o.value, s) else None
    decreases |p|
  {
    if p == [] {
      assert p + [k] + s == [k] + s;
      assert ([k] + s)[0] == k && ([k] + s)[1..] == s;
    } else {
      assert (p + [k] + s)[0] == p[0] && (p + [k] + s)[1..] == p[1..] + [k] + s;
      AtUpdateBelow(t.children[p[0]], p[1..], k, o, s);
    }
  }

  /** Nodes on other branches are untouched. */
  lemma {:induction false} AtUpdateAside(t: Tree, p: Path, k: string, o: Option<Tree>, r: Path)
    requires IsCompositeAt(t, p)
    requires !(r <= p) && !(p + [k] <= r)
    ensures At(Update(t, p, k, o), r) == At(t, r)
    decreases |p|
  {
    assert r != [];
    if p == [] {
      assert r[..1] == [r[0]];
    } else if r[0] == p[0] {
      assert !(r[1..] <= p[1..]);
      assert p + [k] == [p[0]] + (p[1..] + [k]);
      assert r == [r[0]] + r[1..];
      AtUpdateAside(t.children[p[0]], p[1..], k, o, r[1..]);
    }
  }

  /** The key whose composite at `p` and everything below it change. */
  lemma UpdateKinds(t: Tree, p: Path, k: string, o: Option<Tree>, r: Path)
    requires IsCompositeAt(t, p)
    ensures p + [k] <= r ==> At(Update(t, p, k, o), r) == if o.Some? then At(o.value, r[|p| + 1..]) else None
    ensures r <= p ==> IsCompositeAt(Update(t, p, k, o), r) && IsCompositeAt(t, r)
    ensures !(r <= p) && !(p + [k] <= r) ==> At(Update(t, p, k, o), r) == At(t, r)
  {
    if p + [k] <= r {
      assert r == p + [k] + r[|p| + 1..];
      AtUpdateBelow(t, p, k, o, r[|p| + 1..]);
    } else if r <= p {
      AtUpdateAbove(t, p, k, o, r);
    } else {
      AtUpdateAside(t, p, k, o, r);
    }
  }

  /** The tree `register` builds: the missing composites along `segs`
      created, and `sub` put at `segs`. */
  function Graft(t: Tree, segs: Path, sub: Tree): Tree
    decreases |segs|
  {
    if segs == [] then sub
    else
      var ch := if t.TComposite? then t.children else map[];
      var below := if segs[0] in ch then ch[segs[0]] else TComposite(map[]);
      TComposite(ch[segs[0] := Graft(below, segs[1..], sub)])
  }

  /** What grafting changes: every proper prefix of `segs` is a composite,
      `segs` and below is `sub`, every other path is as before. */
  lemma {:induction false} GraftKinds(t: Tree, segs: Path, sub: Tree, r: Path)
    ensures segs <= r ==> At(Graft(t, segs, sub), r) == At(sub, r[|segs|..])
    ensures r < segs ==> IsCompositeAt(Graft(t, segs, sub), r)
    ensures !(segs <= r) && !(r < segs) ==> At(Graft(t, segs, sub), r) == At(t, r)
    decreases |segs|
  {
    if segs != [] && r != [] {
      var ch := if t.TComposite? then t.children else map[];
      var below := if segs[0] in ch then ch[segs[0]] else TComposite(map[]);
      if r[0] == segs[0] {
        GraftKinds(below, segs[1..], sub, r[1..]);
        assert segs <= r <==> segs[1..] <= r[1..] by {
          assert segs == [segs[0]] + segs[1..] && r == [r[0]] + r[1..];
        }
        assert r < segs <==> r[1..] < segs[1..] by {
          assert segs == [segs[0]] + segs[1..] && r == [r[0]] + r[1..];
        }
        if segs <= r {
          assert r[|segs|..] == r[1..][|segs[1..]|..];
        }
        if !(segs <= r) && !(r < segs) {
          assert r[1..] != [];
        }
      } else {
        assert !(segs <= r) && !(r < segs);
      }
    }
  }

  /** When the parent of the last segment is a composite, grafting is a
      plain put under that parent. */
  lemma {:induction false} GraftIsUpdate(t: Tree, p: Path, k: string, sub: Tree)
    requires IsCompositeAt(t, p)
    ensures Graft(t, p + [k], sub) == Update(t, p, k, Some(sub))
    decreases |p|
  {
    if p == [] {
      assert p + [k] == [k];
    } else {
      assert (p + [k])[0] == p[0] && (p + [k])[1..] == p[1..] + [k];
      GraftIsUpdate(t.children[p[0]], p[1..], k, sub);
    }
  }

  /** Creating a missing composite on the way does not change the result
      of grafting along that way. */
  lemma {:induction false} GraftAfterCreate(t: Tree, p: Path, k: string, rest: Path, sub: Tree)
    requires IsCompositeAt(t, p) && At(t, p + [k]).None?
    ensures Graft(Update(t, p, k, Some(TComposite(map[]))), p + [k] + rest, sub) == Graft(t, p + [k] + rest, sub)
    decreases |p|
  {
    if p == [] {
      assert p + [k] + rest == [k] + rest;
      assert ([k] + rest)[0] == k && ([k] + rest)[1..] == rest;
      AtAppend(t, [], [k]);
      assert [k][1..] == [];
    } else {
      var s := p + [k] + rest;
      assert s[0] == p[0] && s[1..] == p[1..] + [k] + rest;
      assert (p + [k])[0] == p[0] && (p + [k])[1..] == p[1..] + [k];
      GraftAfterCreate(t.children[p[0]], p[1..], k, rest, sub);
    }
  }

  /** `"Unable to find the procedure `s`, `s` is not a composite."` */
  function NotCompositeMessage(segment: string): string {
    "Unable to find the procedure `" + segment + "`, `" + segment + "` is not a composite."
  }

  /** The first segment before the last one that names a leaf, when
      walking `segs` from `t`; missing composites do not stop the walk,
      since `register` creates them. */
  function Obstacle(t: Tree, segs: Path): Option<string>
    decreases |segs|
  {
    if |segs| <= 1 || !t.TComposite? || segs[0] !in t.children then None
    else if t.children[segs[0]].TLeaf? then Some(segs[0])
    else Obstacle(t.children[segs[0]], segs[1..])
  }

  /** A leaf stands in the way exactly when some proper prefix of `segs`
      names a leaf, and the error names the last segment of that prefix. */
  lemma {:induction false} ObstacleIff(t: Tree, segs: Path)
    requires t.TComposite?
    ensures Obstacle(t, segs).Some? <==>
      exists i :: 1 <= i < |segs| && At(t, segs[..i]).Some? && At(t, segs[..i]).value.TLeaf?
    ensures forall i :: 1 <= i < |segs| && At(t, segs[..i]).Some? && At(t, segs[..i]).value.TLeaf? ==>
      Obstacle(t, segs) == Some(segs[i - 1])
    decreases |segs|
  {
    if |segs| >= 2 {
      assert segs[..1] == [segs[0]];
      var ch := t.children;
      forall i | 1 <= i < |segs|
        ensures At(t, segs[..i]) == if segs[0] in ch then At(ch[segs[0]], segs[1..][..i - 1]) else None
      {
        assert segs[..i][0] == segs[0] && segs[..i][1..] == segs[1..][..i - 1];
      }
      if segs[0] in ch && ch[segs[0]].TComposite? {
        ObstacleIff(ch[segs[0]], segs[1..]);
        assert At(t, segs[..1]) == Some(ch[segs[0]]);
        if Obstacle(t, segs).Some? {
          var j :| 1 <= j < |segs[1..]| && At(ch[segs[0]], segs[1..][..j]).Some? && At(ch[segs[0]], segs[1..][..j]).value.TLeaf?;
          assert At(t, segs[..j + 1]) == At(ch[segs[0]], segs[1..][..j]);
        }
        forall i | 1 <= i < |segs| && At(t, segs[..i]).Some? && At(t, segs[..i]).value.TLeaf?
          ensures Obstacle(t, segs) == Some(segs[i - 1])
        {
          assert segs[1..][i - 2] == segs[i - 1];
        }
      } else if segs[0] in ch {
        assert At(t, segs[..1]) == Some(ch[segs[0]]);
        forall i | 2 <= i < |segs|
          ensures At(t, segs[..i]).None?
        {
          assert segs[1..][..i - 1] != [];
        }
      } else {
        forall i | 1 <= i < |segs|
          ensures At(t, segs[..i]).None?
        {
        }
      }
    }
  }

  /** `register(name, timeout, procedure)` on the tree, once the arguments
      are checked and the name split into `segs`. */
  function RegisterTree(t: Tree, segs: Path, leaf: DefaultProcedure): (r: Result<Tree, JavaException>)
    requires segs != []
  {
    match Obstacle(t, segs)
      case Some(s) => Err(IllegalArgumentException(NotCompositeMessage(s)))
      case None => Ok(Graft(t, segs, TLeaf(leaf)))
  }

  /** After a successful register, the leaf is at `segs`, nothing is below
      it, each proper prefix is a composite, and every other path names
      what it named before. */
  lemma RegisterKinds(t: Tree, segs: Path, leaf: DefaultProcedure, r: Path)
    requires segs != [] && t.TComposite? && RegisterTree(t, segs, leaf).Ok?
    ensures var t' := RegisterTree(t, segs, leaf).value;
      && t'.TComposite?
      && Kind(At(t', r)) ==
           if r == segs then LeafKind(leaf)
           else if segs <= r then Absent
           else if r < segs then CompositeKind
           else Kind(At(t, r))
  {
    GraftKinds(t, segs, TLeaf(leaf), r);
    if segs <= r && r != segs {
      assert r[|segs|..] != [];
    }
    if r == segs {
      assert r[|segs|..] == [];
    }
  }

  /** Every prefix of a path that names a composite names a composite. */
  lemma PrefixComposite(t: Tree, p: Path, q: Path)
    requires p <= q && IsCompositeAt(t, q)
    ensures IsCompositeAt(t, p)
  {
    AtAppend(t, p, q[|p|..]);
    assert p + q[|p|..] == q;
  }

  /** `unregister(name)` on the tree: the last segment is removed from its
      parent when every segment before it names a composite; otherwise
      nothing changes. */
  function UnregisterTree(t: Tree, segs: Path): (r: Tree)
    requires segs != []
  {
    var p := segs[..|segs| - 1];
    if IsCompositeAt(t, p) then Update(t, p, segs[|segs| - 1], None) else t
  }

  /** After an unregister, `segs` and everything below it are gone when
      its parent was a composite, and every other path is as before. */
  lemma UnregisterKinds(t: Tree, segs: Path, r: Path)
    requires segs != []
    ensures Kind(At(UnregisterTree(t, segs), r)) ==
      if IsCompositeAt(t, segs[..|segs| - 1]) && segs <= r then Absent else Kind(At(t, r))
  {
    var p := segs[..|segs| - 1];
    assert p + [segs[|segs| - 1]] == segs;
    if IsCompositeAt(t, p) {
      UpdateKinds(t, p, segs[|segs| - 1], None, r);
    }
  }

  /** Every segment is non-blank. */
  predicate NoBlank(segs: Path) {
    forall i :: 0 <= i < |segs| ==> !JavaStrings.IsBlank(segs[i])
  }

  /** The look-up of `checkStatus(name)`: blank segments are skipped; a
      segment below a leaf fails with "'segment' is not a composite", a
      missing one with "Not found". */
  function Walk(t: Tree, segs: Path): (r: Result<Tree, string>)
    ensures r.Err? ==>
      || r.error == "Not found"
      || (exists i :: 0 <= i < |segs| && !JavaStrings.IsBlank(segs[i]) && r.error == "'" + segs[i] + "' is not a composite")
    decreases |segs|
  {
    if segs == [] then Ok(t)
    else if JavaStrings.IsBlank(segs[0]) then Walk(t, segs[1..])
    else match t
      case TLeaf(_) => Err("'" + segs[0] + "' is not a composite")
      case TComposite(ch) => if segs[0] in ch then Walk(ch[segs[0]], segs[1..]) else Err("Not found")
  }

  /** Walking a non-blank prefix that exists goes to the node at it. */
  lemma {:induction false} WalkAppend(t: Tree, p: Path, q: Path)
    requires NoBlank(p) && At(t, p).Some?
    ensures Walk(t, p + q) == Walk(At(t, p).value, q)
    decreases |p|
  {
    if p != [] {
      assert (p + q)[0] == p[0] && (p + q)[1..] == p[1..] + q;
      assert !JavaStrings.IsBlank(p[0]);
      assert NoBlank(p[1..]) by {
        forall i | 0 <= i < |p[1..]| ensures !JavaStrings.IsBlank(p[1..][i]) { assert p[1..][i] == p[i + 1]; }
      }
      WalkAppend(t.children[p[0]], p[1..], q);
    } else {
      assert p + q == q;
    }
  }

  /** Without blank segments, the look-up succeeds exactly when the path
      names a node, and then yields that node. */
  lemma {:induction false} WalkIsAt(t: Tree, p: Path)
    requires NoBlank(p)
    ensures Walk(t, p).Ok? <==> At(t, p).Some?
    ensures Walk(t, p).Ok? ==> Walk(t, p).value == At(t, p).value
    decreases |p|
  {
    if p != [] {
      assert !JavaStrings.IsBlank(p[0]);
      assert NoBlank(p[1..]) by {
        forall i | 0 <= i < |p[1..]| ensures !JavaStrings.IsBlank(p[1..][i]) { assert p[1..][i] == p[i + 1]; }
      }
      if t.TComposite? && p[0] in t.children {
        WalkIsAt(t.children[p[0]], p[1..]);
      }
    }
  }

  /** Blank segments anywhere in the name change nothing. */
  lemma {:induction false} WalkSkipsBlank(t: Tree, p: Path, b: string, q: Path)
    requires JavaStrings.IsBlank(b)
    ensures Walk(t, p + [b] + q) == Walk(t, p + q)
    decreases |p|
  {
    if p == [] {
      assert p + [b] + q == [b] + q && p + q == q;
      assert ([b] + q)[0] == b && ([b] + q)[1..] == q;
    } else {
      assert (p + [b] + q)[0] == p[0] && (p + [b] + q)[1..] == p[1..] + [b] + q;
      assert (p + q)[0] == p[0] && (p + q)[1..] == p[1..] + q;
      WalkSkipsBlank(t, p[1..], b, q);
      if t.TComposite? && p[0] in t.children {
        WalkSkipsBlank(t.children[p[0]], p[1..], b, q);
      }
    }
  }

  /** After registering a name without blank segments, looking it up gives
      the new leaf. */
  lemma WalkAfterRegister(t: Tree, segs: Path, leaf: DefaultProcedure)
    requires segs != [] && RegisterTree(t, segs, leaf).Ok? && NoBlank(segs)
    ensures Walk(RegisterTree(t, segs, leaf).value, segs) == Ok(TLeaf(leaf))
  {
    GraftKinds(t, segs, TLeaf(leaf), segs);
    assert segs[|segs|..] == [];
    WalkIsAt(RegisterTree(t, segs, leaf).value, segs);
  }

  /** After unregistering a name without blank segments whose parent is a
      composite, looking it up fails with "Not found". */
  lemma WalkAfterUnregister(t: Tree, segs: Path)
    requires segs != [] && NoBlank(segs) && IsCompositeAt(t, segs[..|segs| - 1])
    ensures Walk(UnregisterTree(t, segs), segs) == Err("Not found")
  {
    var p := segs[..|segs| - 1];
    var k := segs[|segs| - 1];
    assert p + [k] == segs;
    assert NoBlank(p) by {
      forall i | 0 <= i < |p| ensures !JavaStrings.IsBlank(p[i]) { assert p[i] == segs[i]; }
    }
    AtUpdateAbove(t, p, k, None, p);
    assert p[|p|..] == [];
    WalkAppend(UnregisterTree(t, segs), p, [k]);
    WalkRemovedKey(At(t, p).value, k);
  }

  /** Looking up a key just removed from a composite finds nothing. */
  lemma WalkRemovedKey(n: Tree, k: string)
    requires n.TComposite? && !JavaStrings.IsBlank(k)
    ensures Walk(Update(n, [], k, None), [k]) == Err("Not found")
  {
    assert [k][1..] == [];
  }
}
