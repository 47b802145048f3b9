/** `HealthChecksImpl`: the registry of procedures, a tree of composites
    rooted at one `DefaultCompositeProcedure`, addressed by slash-separated
    names.

    The registry keeps three ghost views of its object graph: `Repr`, the
    composites reachable from the root; `Loc`, the path at which each of
    them sits; and `Abs`, the tree of values they stand for (see Trees).
    `Coherent` ties them together one composite at a time. */
module Registry {
  import opened Wrappers
  import opened Leaf
  import opened Composite
  import opened Trees
  import JavaStrings

  /** The children of each composite of the graph. */
  type Graph = map<CompositeProcedure, map<string, Node>>
  /** The path of each composite of the graph. */
  type Locations = map<CompositeProcedure, Path>

  /** The tree a child stands for when it is put: a leaf, or a new and
      still empty composite. */
  function NodeTree(n: Node): Tree {
    match n
    case LeafNode(p) => TLeaf(p)
    case CompositeNode(_) => TComposite(map[])
  }

  function PutTree(o: Option<Node>): Option<Tree> {
    if o.Some? then Some(NodeTree(o.value)) else None
  }

  /** Child `n`, at path `p`, stands for tree `t`: a leaf is its own
      procedure, a composite sits at `p`. */
  ghost predicate LinksTo(n: Node, t: Tree, p: Path, loc: Locations) {
    match n
    case LeafNode(proc) => t == TLeaf(proc)
    case CompositeNode(d) => d in loc && loc[d] == p
  }

  /** The composite at `p` in `abs` has exactly the keys of `kids`, and each
      child stands for the subtree under its key. */
  ghost predicate MirrorsAt(kids: map<string, Node>, p: Path, loc: Locations, abs: Tree) {
    && IsCompositeAt(abs, p)
    && At(abs, p).value.children.Keys == kids.Keys
    && forall k :: k in kids ==> LinksTo(kids[k], At(abs, p).value.children[k], p + [k], loc)
  }

  /** The root sits at the empty path, no two composites share a path, and
      every composite mirrors the tree at its path. */
  ghost predicate Coherent(g: Graph, loc: Locations, abs: Tree, root: CompositeProcedure) {
    && g.Keys == loc.Keys
    && root in loc && loc[root] == []
    && (forall c, d :: c in loc && d in loc && loc[c] == loc[d] ==> c == d)
    && (forall c :: c in g ==> MirrorsAt(g[c], loc[c], loc, abs))
  }

  /** The graph after putting `o` (or removing, for `None`) under key `k` of
      composite `c`: whatever hung below that key is no longer reachable,
      and a new composite child starts with no children. */
  ghost function PutGraph(g: Graph, loc: Locations, c: CompositeProcedure, k: string, o: Option<Node>): Graph
    requires c in g && g.Keys == loc.Keys
  {
    var q := loc[c] + [k];
    var kept := map e | e in g && !(q <= loc[e]) ::
      if e == c then (if o.Some? then g[c][k := o.value] else g[c] - {k}) else g[e];
    if o.Some? && o.value.CompositeNode? then kept[o.value.composite := map[]] else kept
  }

  ghost function PutLoc(loc: Locations, c: CompositeProcedure, k: string, o: Option<Node>): Locations
    requires c in loc
  {
    var q := loc[c] + [k];
    var kept := map e | e in loc && !(q <= loc[e]) :: loc[e];
    if o.Some? && o.value.CompositeNode? then kept[o.value.composite := q] else kept
  }

  /** A prefix of `s + [j]` is a prefix of `s` or all of it. */
  lemma PrefixOfSnoc(a: Path, s: Path, j: string)
    requires a <= s + [j]
    ensures a <= s || a == s + [j]
  {
    if |a| <= |s| {
      assert a == (s + [j])[..|a|] == s[..|a|];
    }
  }

  /** Whether `o` brings a new composite. */
  predicate AddsComposite(o: Option<Node>) {
    o.Some? && o.value.CompositeNode?
  }

  /** Composites kept by a put, with their location. */
  lemma PutLookup(g: Graph, loc: Locations, c: CompositeProcedure, k: string, o: Option<Node>, e: CompositeProcedure)
    requires c in g && g.Keys == loc.Keys
    requires AddsComposite(o) ==> o.value.composite !in g
    ensures PutLoc(loc, c, k, o).Keys == PutGraph(g, loc, c, k, o).Keys
    ensures e in PutGraph(g, loc, c, k, o) <==>
      (e in g && !(loc[c] + [k] <= loc[e])) || (AddsComposite(o) && e == o.value.composite)
    ensures AddsComposite(o) && e == o.value.composite ==>
      PutGraph(g, loc, c, k, o)[e] == map[] && PutLoc(loc, c, k, o)[e] == loc[c] + [k]
    ensures e in g && !(loc[c] + [k] <= loc[e]) ==>
      && PutLoc(loc, c, k, o)[e] == loc[e]
      && PutGraph(g, loc, c, k, o)[e] == if e != c then g[e] else if o.Some? then g[c][k := o.value] else g[c] - {k}
  {
  }

  /** The new composite mirrors the new, empty subtree. */
  lemma PutMirrorsNew(abs: Tree, q: Path, k: string, o: Option<Node>, loc': Locations)
    requires IsCompositeAt(abs, q) && AddsComposite(o)
    ensures MirrorsAt(map[], q + [k], loc', Update(abs, q, k, PutTree(o)))
  {
    UpdateKinds(abs, q, k, PutTree(o), q + [k]);
    assert (q + [k])[|q| + 1..] == [];
  }

  /** The composite written to mirrors its updated subtree. */
  lemma PutMirrorsParent(kids: map<string, Node>, abs: Tree, q: Path, k: string, o: Option<Node>,
                         loc: Locations, loc': Locations)
    requires MirrorsAt(kids, q, loc, abs)
    requires o.Some? && o.value.CompositeNode? ==> o.value.composite in loc' && loc'[o.value.composite] == q + [k]
    requires forall e :: e in loc && !(q + [k] <= loc[e]) ==> e in loc' && loc'[e] == loc[e]
    ensures MirrorsAt(if o.Some? then kids[k := o.value] else kids - {k}, q, loc', Update(abs, q, k, PutTree(o)))
  {
    var o' := PutTree(o);
    AtUpdateAbove(abs, q, k, o', q);
    assert q[|q|..] == [];
    var ch := At(abs, q).value.children;
    forall j | j in kids && j != k
      ensures LinksTo(kids[j], ch[j], q + [j], loc')
    {
      assert LinksTo(kids[j], ch[j], q + [j], loc);
      assert (q + [j])[|q|] == j && (q + [k])[|q|] == k;
    }
  }

  /** A composite above the written one mirrors its subtree, in which only
      the branch towards the written one changed. */
  lemma PutMirrorsAbove(kids: map<string, Node>, abs: Tree, q: Path, k: string, o: Option<Node>,
                        pe: Path, loc: Locations, loc': Locations)
    requires IsCompositeAt(abs, q) && pe <= q && pe != q
    requires MirrorsAt(kids, pe, loc, abs)
    requires forall e :: e in loc && !(q + [k] <= loc[e]) ==> e in loc' && loc'[e] == loc[e]
    ensures MirrorsAt(kids, pe, loc', Update(abs, q, k, PutTree(o)))
  {
    var o' := PutTree(o);
    AtUpdateAbove(abs, q, k, o', pe);
    var ch := At(abs, pe).value.children;
    var a := q[|pe|];
    assert pe + [a] <= q by {
      assert pe + [a] == q[..|pe| + 1];
    }
    PrefixComposite(abs, pe + [a], q);
    AtAppend(abs, pe, [a]);
    assert [a][1..] == [];
    forall j | j in kids
      ensures LinksTo(kids[j], At(Update(abs, q, k, o'), pe).value.children[j], pe + [j], loc')
    {
      assert LinksTo(kids[j], ch[j], pe + [j], loc);
      assert |pe + [j]| < |q + [k]|;
    }
  }

  /** A composite on another branch mirrors its unchanged subtree. */
  lemma PutMirrorsAside(kids: map<string, Node>, abs: Tree, q: Path, k: string, o: Option<Node>,
                        pe: Path, loc: Locations, loc': Locations)
    requires IsCompositeAt(abs, q) && !(pe <= q) && !(q + [k] <= pe)
    requires MirrorsAt(kids, pe, loc, abs)
    requires forall e :: e in loc && !(q + [k] <= loc[e]) ==> e in loc' && loc'[e] == loc[e]
    ensures MirrorsAt(kids, pe, loc', Update(abs, q, k, PutTree(o)))
  {
    AtUpdateAside(abs, q, k, PutTree(o), pe);
    var ch := At(abs, pe).value.children;
    forall j | j in kids
      ensures !(q + [k] <= pe + [j])
    {
      if |q + [k]| <= |pe| {
        assert (pe + [j])[..|q + [k]|] == pe[..|q + [k]|];
      } else if |q + [k]| == |pe| + 1 {
        assert (q + [k])[..|q|] == q && (pe + [j])[..|pe|] == pe;
      }
    }
    forall j | j in kids
      ensures LinksTo(kids[j], ch[j], pe + [j], loc')
    {
      assert LinksTo(kids[j], ch[j], pe + [j], loc);
    }
  }

  /** Putting a child keeps the whole graph coherent. */
  lemma PutCoherent(g: Graph, loc: Locations, abs: Tree, root: CompositeProcedure,
                    c: CompositeProcedure, k: string, o: Option<Node>)
    requires Coherent(g, loc, abs, root) && c in g
    requires AddsComposite(o) ==> o.value.composite !in g
    ensures Coherent(PutGraph(g, loc, c, k, o), PutLoc(loc, c, k, o), Update(abs, loc[c], k, PutTree(o)), root)
  {
    var q := loc[c];
    var qk := q + [k];
    var g' := PutGraph(g, loc, c, k, o);
    var loc' := PutLoc(loc, c, k, o);
    var abs' := Update(abs, q, k, PutTree(o));
    assert MirrorsAt(g[c], q, loc, abs);
    PutLookup(g, loc, c, k, o, root);
    assert !(qk <= []);
    assert forall e :: e in loc && !(qk <= loc[e]) ==> e in loc' && loc'[e] == loc[e] by {
      forall e | e in loc && !(qk <= loc[e])
        ensures e in loc' && loc'[e] == loc[e]
      {
        PutLookup(g, loc, c, k, o, e);
      }
    }
    forall e | e in g'
      ensures MirrorsAt(g'[e], loc'[e], loc', abs')
    {
      PutLookup(g, loc, c, k, o, e);
      if AddsComposite(o) && e == o.value.composite {
        PutMirrorsNew(abs, q, k, o, loc');
      } else if e == c {
        PutMirrorsParent(g[c], abs, q, k, o, loc, loc');
      } else if loc[e] <= q {
        PutMirrorsAbove(g[e], abs, q, k, o, loc[e], loc, loc');
      } else {
        PutMirrorsAside(g[e], abs, q, k, o, loc[e], loc, loc');
      }
    }
    forall e1, e2 | e1 in loc' && e2 in loc' && loc'[e1] == loc'[e2]
      ensures e1 == e2
    {
      PutLookup(g, loc, c, k, o, e1);
      PutLookup(g, loc, c, k, o, e2);
    }
  }

  const DefaultTimeout := 1000
  const TimeoutMessage := "The timeout must be strictly positive"
  const EmptyNameMessage := "The name must not be empty"

  /** `register(name, timeout, procedure)` on the tree: the argument
      checks in the order the source makes them, then the segments of the
      name; a name made only of slashes has no last segment. */
  function RegisterSpec(t: Tree, name: Option<string>, timeout: int, procedure: Option<HandlerRef>)
    : (r: Result<Tree, JavaException>)
    ensures r.Ok? <==>
      && name.Some? && timeout > 0 && name.value != "" && procedure.Some?
      && JavaStrings.Split(name.value) != [] && Obstacle(t, JavaStrings.Split(name.value)).None?
    ensures name.None? ==> r == Err(NullPointerException)
    ensures name.Some? && timeout <= 0 ==> r == Err(IllegalArgumentException(TimeoutMessage))
    ensures name.Some? && timeout > 0 && name.value == "" ==> r == Err(IllegalArgumentException(EmptyNameMessage))
    ensures r.Ok? ==> var segs := JavaStrings.Split(name.value);
      r.value == Graft(t, segs, TLeaf(DefaultProcedure(segs[|segs| - 1], timeout, procedure.value)))
  {
    if name.None? then Err(NullPointerException)
    else if timeout <= 0 then Err(IllegalArgumentException(TimeoutMessage))
    else if name.value == "" then Err(IllegalArgumentException(EmptyNameMessage))
    else if procedure.None? then Err(NullPointerException)
    else RegisterSegments(t, JavaStrings.Split(name.value), timeout, procedure.value)
  }

  /** The part of `register` after the argument checks, on the segments of
      the name: the leaf is named after the last segment. */
  function RegisterSegments(t: Tree, segs: Path, timeout: int, handler: HandlerRef): Result<Tree, JavaException> {
    if segs == [] then Err(ArrayIndexOutOfBoundsException)
    else RegisterTree(t, segs, DefaultProcedure(segs[|segs| - 1], timeout, handler))
  }

  /** `unregister(name)` on the tree. */
  function UnregisterSpec(t: Tree, name: Option<string>): (r: Result<Tree, JavaException>)
    ensures r.Ok? <==> name.Some? && name.value != "" && JavaStrings.Split(name.value) != []
    ensures name.None? ==> r == Err(NullPointerException)
    ensures name.Some? && name.value == "" ==> r == Err(IllegalArgumentException(EmptyNameMessage))
  {
    if name.None? then Err(NullPointerException)
    else if name.value == "" then Err(IllegalArgumentException(EmptyNameMessage))
    else
      var segs := JavaStrings.Split(name.value);
      if segs == [] then Err(ArrayIndexOutOfBoundsException)
      else Ok(UnregisterTree(t, segs))
  }

  /** `checkStatus(name)` on the tree: no name, "" and "/" denote the
      root; otherwise the look-up of the name's segments. */
  function LookupSpec(t: Tree, name: Option<string>): (r: Result<Tree, string>)
    ensures name.None? || name.value == "" || name.value == "/" ==> r == Ok(t)
    ensures r.Err? ==>
      || r.error == "Not found"
      || (exists seg :: seg in JavaStrings.Split(name.value) && !JavaStrings.IsBlank(seg)
            && r.error == "'" + seg + "' is not a composite")
  {
    if name.None? || name.value == "" || name.value == "/" then Ok(t)
    else Walk(t, JavaStrings.Split(name.value))
  }

  /** A name made only of slashes, such as "/", has no segments. */
  lemma SlashHasNoSegments()
    ensures JavaStrings.Split("/") == []
  {
    JavaStrings.SplitEmptyIff("/");
  }

  /** After a successful `register`, `checkStatus` of the same name (when
      it has no blank segment) finds the new leaf, named after the last
      segment and carrying the given timeout and handler. */
  lemma RegisterThenLookup(t: Tree, name: Option<string>, timeout: int, procedure: Option<HandlerRef>)
    requires RegisterSpec(t, name, timeout, procedure).Ok?
    requires NoBlank(JavaStrings.Split(name.value))
    ensures var segs := JavaStrings.Split(name.value);
      LookupSpec(RegisterSpec(t, name, timeout, procedure).value, name)
        == Ok(TLeaf(DefaultProcedure(segs[|segs| - 1], timeout, procedure.value)))
  {
    SlashHasNoSegments();
    var segs := JavaStrings.Split(name.value);
    var leaf := DefaultProcedure(segs[|segs| - 1], timeout, procedure.value);
    var t' := RegisterSpec(t, name, timeout, procedure).value;
    assert t' == RegisterTree(t, segs, leaf).value;
    assert name.value != "/";
    assert LookupSpec(t', name) == Walk(t', segs);
    WalkAfterRegister(t, segs, leaf);
  }

  /** "/a" splits into a blank segment and "a". */
  lemma SplitLeadingSlash()
    ensures JavaStrings.Split("/a") == ["", "a"]
  {
    JavaStrings.SplitAllNoSlash("a");
    assert JavaStrings.SplitAll("/a") == [""] + JavaStrings.SplitAll("a");
  }

  /** `register` keeps blank segments while `checkStatus` skips them: after
      registering "/a" on an empty registry, the leaf sits under a composite
      named "", and looking "/a" up fails with "Not found". */
  lemma RegisterBlankSegmentNotFound(h: HandlerRef)
    ensures RegisterSpec(TComposite(map[]), Some("/a"), DefaultTimeout, Some(h)).Ok?
    ensures LookupSpec(RegisterSpec(TComposite(map[]), Some("/a"), DefaultTimeout, Some(h)).value, Some("/a"))
      == Err("Not found")
  {
    SplitLeadingSlash();
    var leaf := DefaultProcedure("a", DefaultTimeout, h);
    var t1 := TComposite(map["" := TComposite(map["a" := TLeaf(leaf)])]);
    assert Obstacle(TComposite(map[]), ["", "a"]).None?;
    assert Graft(TComposite(map[]), ["", "a"], TLeaf(leaf)) == t1;
    assert JavaStrings.IsBlank("");
    assert !JavaStrings.IsBlank("a");
    assert Walk(t1, ["", "a"]) == Walk(t1, ["a"]);
  }

  /** After `unregister` of a name whose parent is a composite (and which
      has no blank segment), `checkStatus` of that name fails with
      "Not found". */
  lemma UnregisterThenLookup(t: Tree, name: Option<string>)
    requires UnregisterSpec(t, name).Ok?
    requires NoBlank(JavaStrings.Split(name.value))
    requires IsCompositeAt(t, ParentPath(JavaStrings.Split(name.value)))
    ensures LookupSpec(UnregisterSpec(t, name).value, name) == Err("Not found")
  {
    SlashHasNoSegments();
    WalkAfterUnregister(t, JavaStrings.Split(name.value));
  }

  lemma SplitFooBar()
    ensures JavaStrings.Split("foo") == ["foo"]
    ensures JavaStrings.Split("foo/bar") == ["foo", "bar"]
  {
    JavaStrings.SplitAllNoSlash("foo");
    JavaStrings.SplitAllNoSlash("bar");
    JavaStrings.SplitAllPrefix("foo", "/bar");
    assert "foo/bar" == "foo" + "/bar";
    assert JavaStrings.SplitAll("/bar") == [""] + JavaStrings.SplitAll("bar");
    assert JavaStrings.SplitAll("foo/bar") == ["foo", "bar"];
  }

  /** Registering "foo" and then "foo/bar" fails, since "foo" is a leaf. */
  lemma RegisterBelowLeafFails(h: HandlerRef)
    ensures RegisterSpec(TComposite(map[]), Some("foo"), DefaultTimeout, Some(h)).Ok?
    ensures RegisterSpec(RegisterSpec(TComposite(map[]), Some("foo"), DefaultTimeout, Some(h)).value,
                         Some("foo/bar"), DefaultTimeout, Some(h))
      == Err(IllegalArgumentException(NotCompositeMessage("foo")))
  {
    SplitFooBar();
    var leaf := DefaultProcedure("foo", DefaultTimeout, h);
    var t1 := TComposite(map["foo" := TLeaf(leaf)]);
    assert Graft(TComposite(map[]), ["foo"], TLeaf(leaf)) == t1;
    assert RegisterSpec(TComposite(map[]), Some("foo"), DefaultTimeout, Some(h)) == Ok(t1);
    assert Obstacle(t1, ["foo", "bar"]) == Some("foo");
  }

  /** The path of the composite that receives the last segment: every
      segment but the last. */
  function ParentPath(segs: Path): Path {
    if segs == [] then [] else segs[..|segs| - 1]
  }

  lemma ParentPathSnoc(segs: Path)
    requires segs != []
    ensures ParentPath(segs) + [segs[|segs| - 1]] == segs
  {
  }

  lemma PrefixSnoc(segs: Path, i: nat)
    requires i < |segs|
    ensures segs[..i] + [segs[i]] == segs[..i + 1]
  {
  }

  /** Below a new, empty composite there is nothing yet. */
  lemma EmptyStep(t: Tree, segs: Path, i: nat)
    requires i < |segs| && At(t, segs[..i]) == Some(TComposite(map[]))
    ensures At(t, segs[..i + 1]).None?
  {
    PrefixSnoc(segs, i);
    AtAppend(t, segs[..i], [segs[i]]);
  }

  /** A step of `traverseAndCreate` that meets a leaf: the leaf is the
      obstacle. */
  lemma LeafStep(t: Tree, segs: Path, i: nat)
    requires i < |segs| - 1 && IsCompositeAt(t, segs[..i])
    requires At(t, segs[..i + 1]).Some? && At(t, segs[..i + 1]).value.TLeaf?
    ensures Obstacle(At(t, segs[..i]).value, segs[i..]) == Some(segs[i])
  {
    PrefixSnoc(segs, i);
    AtAppend(t, segs[..i], [segs[i]]);
    assert segs[i..][0] == segs[i];
  }

  /** A step of `traverseAndCreate` that meets a composite: the search for
      an obstacle goes on below it. */
  lemma CompositeStep(t: Tree, segs: Path, i: nat)
    requires i < |segs| - 1 && IsCompositeAt(t, segs[..i]) && IsCompositeAt(t, segs[..i + 1])
    ensures Obstacle(At(t, segs[..i]).value, segs[i..]) == Obstacle(At(t, segs[..i + 1]).value, segs[i + 1..])
  {
    PrefixSnoc(segs, i);
    AtAppend(t, segs[..i], [segs[i]]);
    assert segs[i..][0] == segs[i] && segs[i..][1..] == segs[i + 1..];
  }

  /** Creating the missing composite at the next segment leaves an empty
      composite there and does not change the final graft; there is no
      obstacle from there on. */
  lemma CreateStep(t: Tree, segs: Path, i: nat)
    requires i < |segs| - 1 && IsCompositeAt(t, segs[..i]) && At(t, segs[..i + 1]).None?
    ensures Obstacle(At(t, segs[..i]).value, segs[i..]).None?
    ensures var t' := Update(t, segs[..i], segs[i], Some(TComposite(map[])));
      && At(t', segs[..i + 1]) == Some(TComposite(map[]))
      && Obstacle(At(t', segs[..i + 1]).value, segs[i + 1..]).None?
      && forall sub :: Graft(t', segs, sub) == Graft(t, segs, sub)
  {
    var p := segs[..i];
    PrefixSnoc(segs, i);
    AtAppend(t, p, [segs[i]]);
    assert segs[i..][0] == segs[i];
    assert p + [segs[i]] + segs[i + 1..] == segs;
    AtUpdateBelow(t, p, segs[i], Some(TComposite(map[])), []);
    assert p + [segs[i]] + [] == p + [segs[i]];
    forall sub
      ensures Graft(Update(t, p, segs[i], Some(TComposite(map[]))), segs, sub) == Graft(t, segs, sub)
    {
      GraftAfterCreate(t, p, segs[i], segs[i + 1..], sub);
    }
  }

  /** How far `traverseAndCreate` has gone from `t0`: `t` is the tree
      after `i` steps, in which the composites along the first `i`
      segments exist; grafting along `segs` is unaffected; the obstacle is
      still ahead; and once a composite was created (`created`) there is no
      obstacle and the walk is in a new, empty composite. */
  ghost predicate Progress(t0: Tree, t: Tree, segs: Path, i: nat, created: bool) {
    && i <= |segs| && IsCompositeAt(t, segs[..i])
    && (forall sub :: Graft(t, segs, sub) == Graft(t0, segs, sub))
    && Obstacle(t0, segs) == Obstacle(At(t, segs[..i]).value, segs[i..])
    && (created ==> i > 0 && Obstacle(t0, segs).None? && At(t, segs[..i]) == Some(TComposite(map[])))
    && (!created ==> t == t0)
  }

  /** One step of `traverseAndCreate`, by what the next segment names. */
  lemma ProgressStep(t0: Tree, t: Tree, segs: Path, i: nat, created: bool)
    requires i < |segs| - 1 && Progress(t0, t, segs, i, created)
    ensures segs[..i] + [segs[i]] == segs[..i + 1]
    ensures Kind(At(t, segs[..i + 1])).LeafKind? ==> t == t0 && Obstacle(t0, segs) == Some(segs[i])
    ensures At(t, segs[..i + 1]).None? ==>
      Progress(t0, Update(t, segs[..i], segs[i], Some(TComposite(map[]))), segs, i + 1, true)
    ensures IsCompositeAt(t, segs[..i + 1]) ==> !created && Progress(t0, t, segs, i + 1, false)
  {
    PrefixSnoc(segs, i);
    if created {
      EmptyStep(t, segs, i);
    }
    if At(t, segs[..i + 1]).None? {
      CreateStep(t, segs, i);
    } else if At(t, segs[..i + 1]).value.TLeaf? {
      LeafStep(t, segs, i);
    } else {
      CompositeStep(t, segs, i);
    }
  }

  /** When `traverseAndCreate` has walked every segment but the last, there
      is no obstacle. */
  lemma ProgressDone(t0: Tree, t: Tree, segs: Path, i: nat, created: bool)
    requires Progress(t0, t, segs, i, created) && (segs == [] || i == |segs| - 1)
    ensures Obstacle(t0, segs).None? && segs[..i] == ParentPath(segs)
  {
  }

  /** One segment of the look-up. */
  lemma WalkStep(t: Tree, segs: Path, i: nat)
    requires i < |segs|
    ensures Walk(t, segs[i..]) ==
      if JavaStrings.IsBlank(segs[i]) then Walk(t, segs[i + 1..])
      else match t
        case TLeaf(_) => Err("'" + segs[i] + "' is not a composite")
        case TComposite(ch) => if segs[i] in ch then Walk(ch[segs[i]], segs[i + 1..]) else Err("Not found")
  {
    assert segs[i..][0] == segs[i] && segs[i..][1..] == segs[i + 1..];
  }

  /** A path that does not name a composite has no composite below it. */
  lemma NotCompositeBelow(t: Tree, p: Path, q: Path)
    requires p <= q && !IsCompositeAt(t, p)
    ensures !IsCompositeAt(t, q)
  {
    AtAppend(t, p, q[|p|..]);
    assert p + q[|p|..] == q;
  }

  /** The registry: the root composite and the Vert.x instance it hands to
      the procedures it creates. */
  class HealthChecksImpl {
    const vertx: VertxRef
    const root: CompositeProcedure
    /** The composites reachable from the root. */
    ghost var Repr: set<CompositeProcedure>
    /** Where each of them sits. */
    ghost var Loc: Locations
    /** The tree the whole registry stands for. */
    ghost var Abs: Tree

    ghost function Snapshot(): Graph
      reads this, Repr
    {
      map c | c in Repr :: c.children
    }

    ghost predicate Valid()
      reads this, Repr
    {
      Repr == Loc.Keys && Coherent(Snapshot(), Loc, Abs, root)
    }

    /** `new HealthChecksImpl(vertx)`: an empty root composite. */
    constructor (vertx: VertxRef)
      ensures Valid() && Abs == TComposite(map[])
      ensures this.vertx == vertx
    {
      this.vertx := vertx;
      var r := new CompositeProcedure();
      root := r;
      Repr := {r};
      Loc := map[r := []];
      Abs := TComposite(map[]);
    }

    /** Takes `g`, which agrees with the composites' children, as the new
        graph, with its locations and tree. */
    ghost method Rebase(g: Graph, loc: Locations, abs: Tree)
      requires Coherent(g, loc, abs, root)
      requires forall e :: e in g ==> e.children == g[e]
      modifies this
      ensures Valid() && Repr == loc.Keys && Loc == loc && Abs == abs
    {
      Repr := loc.Keys;
      Loc := loc;
      Abs := abs;
      assert Snapshot() == g;
    }

    /** Puts `o` under key `k` of the composite `c` (removes the key, for
        `None`), keeping the ghost views in step. */
    method PutChild(c: CompositeProcedure, k: string, o: Option<Node>)
      requires Valid() && c in Repr
      requires AddsComposite(o) ==> o.value.composite !in Repr && o.value.composite.children == map[]
      modifies this, c
      ensures Valid()
      ensures Abs == Update(old(Abs), old(Loc)[c], k, PutTree(o))
      ensures Loc == PutLoc(old(Loc), c, k, o) && Repr == Loc.Keys
      ensures Repr <= old(Repr) + if AddsComposite(o) then {o.value.composite} else {}
      ensures c.children == if o.Some? then old(c.children)[k := o.value] else old(c.children) - {k}
    {
      ghost var g := Snapshot();
      ghost var loc := Loc;
      ghost var g' := PutGraph(g, loc, c, k, o);
      PutCoherent(g, loc, Abs, root, c, k, o);
      if o.Some? {
        var _ := c.Add(Some(k), o);
      } else {
        var _ := c.Remove(Some(k));
      }
      forall e | e in g'
        ensures e.children == g'[e]
      {
        PutLookup(g, loc, c, k, o, e);
      }
      PutLookup(g, loc, c, k, o, c);
      Rebase(g', PutLoc(loc, c, k, o), Update(Abs, loc[c], k, PutTree(o)));
    }
  
    /** One step of `traverseAndCreate`: the child `seg` of `parent`,
        created as an empty composite when missing; a leaf throws. */
    method Descend(parent: CompositeProcedure, ghost p: Path, seg: string) returns (r: Result<CompositeProcedure, JavaException>)
      requires Valid() && parent in Repr && Loc[parent] == p
      modifies this, parent
      ensures Valid()
      ensures At(old(Abs), p + [seg]).None? ==> r.Ok? && fresh(r.value)
      ensures At(old(Abs), p + [seg]).Some? ==> Repr == old(Repr)
      ensures r.Err? <==> Kind(At(old(Abs), p + [seg])).LeafKind?
      ensures r.Err? ==> r.error == IllegalArgumentException(NotCompositeMessage(seg))
      ensures At(old(Abs), p + [seg]).Some? ==> Abs == old(Abs)
      ensures At(old(Abs), p + [seg]).None? ==> Abs == Update(old(Abs), p, seg, Some(TComposite(map[])))
      ensures r.Ok? ==> r.value in Repr && Loc[r.value] == p + [seg]
    {
      assert MirrorsAt(parent.children, p, Loc, Abs);
      AtAppend(Abs, p, [seg]);
      var c := parent.Get(seg);
      if c.None? {
        var d := new CompositeProcedure();
        PutChild(parent, seg, Some(CompositeNode(d)));
        return Ok(d);
      } else if c.value.CompositeNode? {
        return Ok(c.value.composite);
      } else {
        return Err(IllegalArgumentException(NotCompositeMessage(seg)));
      }
    }

    /** `traverseAndCreate(segments)`: walks every segment but the last
        from the root, creating each missing composite; a leaf on the way
        throws, which can only happen before anything was created. */
    method TraverseAndCreate(segs: Path) returns (r: Result<CompositeProcedure, JavaException>)
      requires Valid()
      modifies this, Repr
      ensures Valid()
      ensures r.Ok? ==> r.value in old(Repr) || fresh(r.value)
      ensures r.Err? <==> Obstacle(old(Abs), segs).Some?
      ensures r.Err? ==> r.error == IllegalArgumentException(NotCompositeMessage(Obstacle(old(Abs), segs).value))
      ensures r.Err? || |segs| <= 1 ==> Abs == old(Abs)
      ensures r.Ok? ==> r.value in Repr && Loc[r.value] == ParentPath(segs)
      ensures forall sub :: Graft(Abs, segs, sub) == Graft(old(Abs), segs, sub)
    {
      var parent := root;
      ghost var created := false;
      var i := 0;
      assert MirrorsAt(root.children, [], Loc, Abs);
      while i < |segs| - 1
        invariant 0 <= i <= |segs| && (segs == [] || i < |segs|)
        invariant Valid()
        invariant parent in old(Repr) || fresh(parent)
        invariant parent in Repr && Loc[parent] == segs[..i]
        invariant Progress(old(Abs), Abs, segs, i, created)
        invariant !created ==> Repr == old(Repr)
        decreases |segs| - i
      {
        ProgressStep(old(Abs), Abs, segs, i, created);
        var next := Descend(parent, segs[..i], segs[i]);
        if next.Err? {
          return Err(next.error);
        }
        created := created || Abs != old(Abs);
        parent := next.value;
        i := i + 1;
      }
      ProgressDone(old(Abs), Abs, segs, i, created);
      return Ok(parent);
    }

    /** `register(name, timeout, procedure)`. */
    method Register(name: Option<string>, timeout: int, procedure: Option<HandlerRef>)
      returns (r: Result<Unit, JavaException>)
      requires Valid()
      modifies this, Repr
      ensures Valid()
      ensures RegisterSpec(old(Abs), name, timeout, procedure).Err? ==>
        r == Err(RegisterSpec(old(Abs), name, timeout, procedure).error) && Abs == old(Abs)
      ensures RegisterSpec(old(Abs), name, timeout, procedure).Ok? ==>
        r == Ok(Unit) && Abs == RegisterSpec(old(Abs), name, timeout, procedure).value
    {
      if name.None? {
        return Err(NullPointerException);
      }
      if timeout <= 0 {
        return Err(IllegalArgumentException(TimeoutMessage));
      }
      if name.value == "" {
        return Err(IllegalArgumentException(EmptyNameMessage));
      }
      if procedure.None? {
        return Err(NullPointerException);
      }
      r := RegisterPath(JavaStrings.Split(name.value), timeout, procedure.value);
    }

    /** The body of `register` from `name.split("/")` on: creates the
        composites on the way, then adds the leaf under the last segment. */
    method RegisterPath(segs: Path, timeout: int, handler: HandlerRef) returns (r: Result<Unit, JavaException>)
      requires Valid()
      modifies this, Repr
      ensures Valid()
      ensures RegisterSegments(old(Abs), segs, timeout, handler).Err? ==>
        r == Err(RegisterSegments(old(Abs), segs, timeout, handler).error) && Abs == old(Abs)
      ensures RegisterSegments(old(Abs), segs, timeout, handler).Ok? ==>
        r == Ok(Unit) && Abs == RegisterSegments(old(Abs), segs, timeout, handler).value
    {
      var parent := TraverseAndCreate(segs);
      if parent.Err? {
        return Err(parent.error);
      }
      if segs == [] {
        return Err(ArrayIndexOutOfBoundsException);
      }
      var last := segs[|segs| - 1];
      var leaf := New(Some(vertx), Some(last), timeout, Some(handler));
      ghost var mid := Abs;
      ParentPathSnoc(segs);
      PutChild(parent.value, last, Some(LeafNode(leaf.value)));
      GraftIsUpdate(mid, ParentPath(segs), last, TLeaf(leaf.value));
      return Ok(Unit);
    }

    /** `register(name, procedure)`: the default timeout of 1000 ms. */
    method RegisterDefault(name: Option<string>, procedure: Option<HandlerRef>)
      returns (r: Result<Unit, JavaException>)
      requires Valid()
      modifies this, Repr
      ensures Valid()
      ensures RegisterSpec(old(Abs), name, DefaultTimeout, procedure).Err? ==>
        r == Err(RegisterSpec(old(Abs), name, DefaultTimeout, procedure).error) && Abs == old(Abs)
      ensures RegisterSpec(old(Abs), name, DefaultTimeout, procedure).Ok? ==>
        r == Ok(Unit) && Abs == RegisterSpec(old(Abs), name, DefaultTimeout, procedure).value
    {
      r := Register(name, DefaultTimeout, procedure);
    }

    /** `findLastParent(segments)`: the composite at every segment but the
        last, or null when some segment on the way is missing or a leaf. */
    method FindLastParent(segs: Path) returns (parent: Option<CompositeProcedure>)
      requires Valid()
      ensures parent.Some? <==> IsCompositeAt(Abs, ParentPath(segs))
      ensures parent.Some? ==> parent.value in Repr && Loc[parent.value] == ParentPath(segs)
    {
      var p := root;
      var i := 0;
      while i < |segs| - 1
        invariant 0 <= i <= |segs| && (segs == [] || i < |segs|)
        invariant p in Repr && Loc[p] == segs[..i]
        decreases |segs| - i
      {
        var seg := segs[i];
        PrefixSnoc(segs, i);
        ChildComposite(p, seg);
        var c := p.Get(seg);
        if c.Some? && c.value.CompositeNode? {
          p := c.value.composite;
        } else {
          NotCompositeBelow(Abs, segs[..i + 1], ParentPath(segs));
          return None;
        }
        i := i + 1;
      }
      assert MirrorsAt(p.children, segs[..i], Loc, Abs);
      return Some(p);
    }

    /** `unregister(name)`. */
    method Unregister(name: Option<string>) returns (r: Result<Unit, JavaException>)
      requires Valid()
      modifies this, Repr
      ensures Valid()
      ensures UnregisterSpec(old(Abs), name).Err? ==>
        r == Err(UnregisterSpec(old(Abs), name).error) && Abs == old(Abs)
      ensures UnregisterSpec(old(Abs), name).Ok? ==>
        r == Ok(Unit) && Abs == UnregisterSpec(old(Abs), name).value
    {
      if name.None? {
        return Err(NullPointerException);
      }
      if name.value == "" {
        return Err(IllegalArgumentException(EmptyNameMessage));
      }
      var segs := JavaStrings.Split(name.value);
      var parent := FindLastParent(segs);
      if parent.Some? {
        if segs == [] {
          return Err(ArrayIndexOutOfBoundsException);
        }
        PutChild(parent.value, segs[|segs| - 1], None);
      }
      return Ok(Unit);
    }

    /** Node `n` stands for tree `t`: a leaf for itself, a composite for
        the tree at its path. */
    ghost predicate Denotes(n: Node, t: Tree)
      reads this
    {
      match n
      case LeafNode(p) => t == TLeaf(p)
      case CompositeNode(c) => c in Loc && At(Abs, Loc[c]) == Some(t)
    }

    /** The child `seg` of a composite is a composite exactly when the tree
        has a composite at the child's path, which is then its path. */
    lemma ChildComposite(c: CompositeProcedure, seg: string)
      requires Valid() && c in Repr
      ensures (seg in c.children && c.children[seg].CompositeNode?) <==> IsCompositeAt(Abs, Loc[c] + [seg])
      ensures seg in c.children && c.children[seg].CompositeNode? ==>
        c.children[seg].composite in Repr && Loc[c.children[seg].composite] == Loc[c] + [seg]
    {
      assert MirrorsAt(c.children, Loc[c], Loc, Abs);
      AtAppend(Abs, Loc[c], [seg]);
      if seg in c.children && c.children[seg].CompositeNode? {
        var d := c.children[seg].composite;
        assert MirrorsAt(d.children, Loc[d], Loc, Abs);
      }
    }

    /** The children of a composite stand for the children of its tree. */
    lemma ChildDenotes(c: CompositeProcedure, cur: Tree, seg: string)
      requires Valid() && Denotes(CompositeNode(c), cur)
      ensures cur.TComposite?
      ensures seg in c.children <==> seg in cur.children
      ensures seg in c.children ==> Denotes(c.children[seg], cur.children[seg])
    {
      assert MirrorsAt(c.children, Loc[c], Loc, Abs);
      AtAppend(Abs, Loc[c], [seg]);
    }

    /** The procedure `checkStatus(name)` computes, or the message its
        future fails with. */
    method CheckStatus(name: Option<string>) returns (r: Result<Node, string>)
      requires Valid()
      ensures r.Ok? <==> LookupSpec(Abs, name).Ok?
      ensures r.Err? ==> r.error == LookupSpec(Abs, name).error
      ensures r.Ok? ==> Denotes(r.value, LookupSpec(Abs, name).value)
    {
      assert MirrorsAt(root.children, [], Loc, Abs);
      if name.None? || name.value == "" || name.value == "/" {
        return Ok(CompositeNode(root));
      }
      var segs := JavaStrings.Split(name.value);
      var check := CompositeNode(root);
      ghost var cur := Abs;
      var i := 0;
      while i < |segs|
        invariant 0 <= i <= |segs|
        invariant Denotes(check, cur)
        invariant Walk(Abs, segs) == Walk(cur, segs[i..])
      {
        var seg := segs[i];
        WalkStep(cur, segs, i);
        if JavaStrings.IsBlank(seg) {
          i := i + 1;
          continue;
        }
        if check.CompositeNode? {
          var c := check.composite;
          ChildDenotes(c, cur, seg);
          var n := c.Get(seg);
          if n.None? {
            return Err("Not found");
          }
          cur := cur.children[seg];
          check := n.value;
        } else {
          return Err("'" + seg + "' is not a composite");
        }
        i := i + 1;
      }
      assert segs[i..] == [];
      return Ok(check);
    }
  }
}
