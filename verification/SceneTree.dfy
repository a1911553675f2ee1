/** The tree of transformation nodes that the IFC importer builds on demand. */
module SceneTree {
  import opened Boxes
  import opened Matrices
  import opened Wrappers

  // ----- the file

  datatype IfcObject = IfcObject(parent: Option<int>, isElement: bool, typeId: nat)

  datatype IfcFile = IfcFile(objects: map<int, IfcObject>, maxId: int)

  /** Parents exist and have a smaller rank: the parent relation is acyclic. */
  ghost predicate ValidFile(file: IfcFile, rank: int -> nat) {
    forall id :: id in file.objects ==>
      && 0 < id <= file.maxId
      && var parent := file.objects[id].parent;
         parent.Some? ==> parent.value in file.objects && rank(parent.value) < rank(id)
  }

  // ----- the tree

  /** The tree uses the matrix product, which is always `Mul`, as a value with the two laws of `Lawful`: its
      proofs then reason about products without unfolding them into sums of coefficients. */
  type MatrixProduct = (Matrix, Matrix) -> Matrix

  const ROOT: nat := 0

  datatype Kind = RootNode | Branch(owner: int) | Leaf(owner: int) | Group(key: int)

  datatype Node = Node(kind: Kind, local: Matrix, parent: Option<nat>)

  /** One root; every other node hangs under a node that is not a leaf; nodes other than leaves are
      younger than their parents. */
  ghost predicate IsTree(nodes: map<nat, Node>) {
    && ROOT in nodes && nodes[ROOT] == Node(RootNode, IDENTITY, None)
    && forall id {:trigger Attached(nodes, id)} :: id in nodes && id != ROOT ==> Attached(nodes, id)
  }

  ghost predicate Attached(nodes: map<nat, Node>, id: nat)
    requires id in nodes
  {
    var n := nodes[id];
    && !n.kind.RootNode?
    && n.parent.Some? && n.parent.value in nodes && !nodes[n.parent.value].kind.Leaf?
    && (n.kind.Leaf? || n.parent.value < id)
  }

  /** The product of the local matrices from the root down to a node. */
  ghost function World(mul: MatrixProduct, nodes: map<nat, Node>, id: nat): (m: Matrix)
    requires IsTree(nodes) && id in nodes
    decreases if nodes[id].kind.Leaf? then 1 else 0, id
  {
    if id == ROOT then IDENTITY
    else
      assert Attached(nodes, id);
      mul(World(mul, nodes, nodes[id].parent.value), nodes[id].local)
  }

  /** Following parents from a node ends at the root after `steps` steps. */
  ghost predicate ReachesRoot(nodes: map<nat, Node>, id: nat, steps: nat)
    requires IsTree(nodes) && id in nodes
    decreases steps
  {
    if id == ROOT then steps == 0
    else
      assert Attached(nodes, id);
      steps > 0 &&
      ReachesRoot(nodes, nodes[id].parent.value, steps - 1)
  }

  lemma {:induction false} EveryNodeReachesRoot(nodes: map<nat, Node>, id: nat)
    requires IsTree(nodes) && id in nodes
    ensures exists steps: nat :: ReachesRoot(nodes, id, steps)
    decreases if nodes[id].kind.Leaf? then 1 else 0, id
  {
    if id == ROOT {
      assert ReachesRoot(nodes, id, 0);
    } else {
      assert Attached(nodes, id);
      EveryNodeReachesRoot(nodes, nodes[id].parent.value);
      var steps: nat :| ReachesRoot(nodes, nodes[id].parent.value, steps);
      assert ReachesRoot(nodes, id, steps + 1);
    }
  }

  // ----- the cache of accumulated transforms

  /** A missing entry is read as the identity. */
  function At(cache: map<nat, Matrix>, id: nat): (m: Matrix) {
    if id in cache then cache[id] else IDENTITY
  }

  /** The two laws of the matrix product that the tree relies on. */
  ghost predicate Lawful(mul: MatrixProduct) {
    && (forall m, n :: IsTranslation(m) && IsTranslation(n) ==> IsTranslation(mul(m, n)))
    && forall m :: mul(m, IDENTITY) == m
  }

  lemma MatrixProductIsLawful()
    ensures Lawful(Mul)
  {
    forall m, n | IsTranslation(m) && IsTranslation(n) ensures IsTranslation(Mul(m, n)) {
      TranslationsClosed(m, n);
    }
    forall m ensures Mul(m, IDENTITY) == m {
      MulByIdentity(m);
    }
  }

  lemma IdentityIsTranslation()
    ensures IsTranslation(IDENTITY)
  {
    assert IDENTITY == Translate(Vec3(0.0, 0.0, 0.0));
  }

  /** Every entry is a translation, namely the entry of the parent times the local matrix. */
  ghost predicate CacheExact(mul: MatrixProduct, nodes: map<nat, Node>, cache: map<nat, Matrix>) {
    && (forall id :: id in cache ==> id in nodes && IsTranslation(cache[id]))
    && At(cache, ROOT) == IDENTITY
    && forall id {:trigger Accumulated(mul, nodes, cache, id)} ::
         id in nodes && id != ROOT ==> Accumulated(mul, nodes, cache, id)
  }

  /** The entry of a node is that of its parent times the local matrix. */
  predicate Accumulated(mul: MatrixProduct, nodes: map<nat, Node>, cache: map<nat, Matrix>, id: nat)
    requires id in nodes
  {
    id in cache && nodes[id].parent.Some? && cache[id] == mul(At(cache, nodes[id].parent.value), nodes[id].local)
  }

  /** The cached transform of a node is the product of the local matrices on its path. */
  lemma {:induction false} CacheIsWorld(mul: MatrixProduct, nodes: map<nat, Node>, cache: map<nat, Matrix>, id: nat)
    requires IsTree(nodes) && CacheExact(mul, nodes, cache) && id in nodes
    ensures At(cache, id) == World(mul, nodes, id)
    decreases if nodes[id].kind.Leaf? then 1 else 0, id
  {
    if id != ROOT {
      assert Attached(nodes, id) && Accumulated(mul, nodes, cache, id);
      CacheIsWorld(mul, nodes, cache, nodes[id].parent.value);
    }
  }

  /** The cached transforms of all nodes are translations, hence invertible. */
  lemma CachedIsInvertible(mul: MatrixProduct, nodes: map<nat, Node>, cache: map<nat, Matrix>, id: nat)
    requires CacheExact(mul, nodes, cache)
    ensures IsTranslation(At(cache, id)) && Affine(At(cache, id)) && Determinant(At(cache, id)) == 1.0
  {
    IdentityIsTranslation();
    TranslationIsInvertible(At(cache, id));
  }

  // ----- adding and re-parenting

  lemma AddKeepsTree(was: map<nat, Node>, id: nat, kind: Kind, local: Matrix, parent: nat)
    requires IsTree(was) && (forall k :: k in was ==> k < id) && !kind.RootNode?
    requires parent in was && !was[parent].kind.Leaf?
    ensures IsTree(was[id := Node(kind, local, Some(parent))])
  {
    var now := was[id := Node(kind, local, Some(parent))];
    forall k | k in now && k != ROOT ensures Attached(now, k) {
      assert k != id ==> Attached(was, k);
    }
  }

  lemma AddKeepsCache(
    mul: MatrixProduct, was: map<nat, Node>, cache: map<nat, Matrix>, id: nat, kind: Kind, local: Matrix, parent: nat)
    requires Lawful(mul) && IsTree(was) && id !in was && IsTranslation(local)
    requires CacheExact(mul, was, cache) && parent in was && parent in cache
    ensures CacheExact(mul, was[id := Node(kind, local, Some(parent))], cache[id := mul(cache[parent], local)])
  {
    var now, cache' := was[id := Node(kind, local, Some(parent))], cache[id := mul(cache[parent], local)];
    forall k | k in now && k != ROOT ensures Accumulated(mul, now, cache', k) {
      assert k != id ==> Attached(was, k) && Accumulated(mul, was, cache, k);
    }
  }

  lemma AddKeepsBoth(
    mul: MatrixProduct, was: map<nat, Node>, cache: map<nat, Matrix>, id: nat, kind: Kind, local: Matrix, parent: nat)
    requires Lawful(mul) && IsTree(was) && (forall k :: k in was ==> k < id) && !kind.RootNode? && IsTranslation(local)
    requires CacheExact(mul, was, cache) && parent in was && parent in cache && !was[parent].kind.Leaf?
    ensures var now, cache' := was[id := Node(kind, local, Some(parent))], cache[id := mul(cache[parent], local)];
            IsTree(now) && CacheExact(mul, now, cache') && forall k :: k in was ==> At(cache', k) == At(cache, k)
  {
    AddKeepsTree(was, id, kind, local, parent);
    AddKeepsCache(mul, was, cache, id, kind, local, parent);
  }

  function Reparent(nodes: map<nat, Node>, leaf: nat, branch: nat): (r: map<nat, Node>)
    requires leaf in nodes
  {
    nodes[leaf := nodes[leaf].(parent := Some(branch))]
  }

  /** A leaf may be hung under any inner node with the same accumulated transform. */
  lemma ReparentKeeps(mul: MatrixProduct, was: map<nat, Node>, cache: map<nat, Matrix>, leaf: nat, branch: nat)
    requires IsTree(was) && leaf in was && was[leaf].kind.Leaf? && branch in was && !was[branch].kind.Leaf?
    requires CacheExact(mul, was, cache)
    requires was[leaf].parent.Some? && At(cache, branch) == At(cache, was[leaf].parent.value)
    ensures IsTree(Reparent(was, leaf, branch)) && CacheExact(mul, Reparent(was, leaf, branch), cache)
  {
    var now := Reparent(was, leaf, branch);
    forall k | k in now && k != ROOT ensures Attached(now, k) && Accumulated(mul, now, cache, k) {
      assert Attached(was, k) && Accumulated(mul, was, cache, k);
    }
  }

  /** Reading a missing entry adds the identity, which changes no entry that is read. */
  lemma {:induction false} LookUpKeeps(mul: MatrixProduct, nodes: map<nat, Node>, cache: map<nat, Matrix>, id: nat)
    requires CacheExact(mul, nodes, cache) && id in nodes && id !in cache
    ensures CacheExact(mul, nodes, cache[id := IDENTITY])
    ensures forall k :: At(cache[id := IDENTITY], k) == At(cache, k)
  {
    IdentityIsTranslation();
    forall k | k in nodes && k != ROOT ensures Accumulated(mul, nodes, cache[id := IDENTITY], k) {
      assert Accumulated(mul, nodes, cache, k);
    }
  }

  /** No node is lost, changes its kind or its local matrix, or moves. */
  ghost predicate Extends(was: map<nat, Node>, cache: map<nat, Matrix>, now: map<nat, Node>, cache': map<nat, Matrix>) {
    forall id :: id in was ==>
      && id in now && now[id].kind == was[id].kind && now[id].local == was[id].local
      && At(cache', id) == At(cache, id)
  }

  lemma {:induction false} ExtendsTwice(
    was: map<nat, Node>, cache: map<nat, Matrix>, mid: map<nat, Node>, cache': map<nat, Matrix>,
    now: map<nat, Node>, cache'': map<nat, Matrix>)
    requires Extends(was, cache, mid, cache') && Extends(mid, cache', now, cache'')
    ensures Extends(was, cache, now, cache'')
  {
  }

  /** Adding a node extends the tree, also if the cache has gained the identity for a missing entry. */
  lemma {:induction false} AddExtends(
    was: map<nat, Node>, cache: map<nat, Matrix>, cache': map<nat, Matrix>, id: nat, node: Node, m: Matrix)
    requires id !in was && forall k :: At(cache', k) == At(cache, k)
    ensures Extends(was, cache, was[id := node], cache'[id := m])
  {
  }

  lemma {:induction false} ReparentExtends(was: map<nat, Node>, cache: map<nat, Matrix>, leaf: nat, branch: nat)
    requires leaf in was
    ensures Extends(was, cache, Reparent(was, leaf, branch), cache)
  {
  }

  // ----- what the importer keeps beside the tree

  /** The nodes that represent one object, or one group of objects. */
  datatype NodesInfo = NodesInfo(branch: Option<nat>, leaf: Option<nat>)

  const NO_NODES := NodesInfo(None, None)

  function EntryOf(shared: map<int, NodesInfo>, key: int): (r: NodesInfo) {
    if key in shared then shared[key] else NO_NODES
  }

  /** Group keys lie behind all object ids, so the kind of a branch follows from its key. */
  function BranchKind(file: IfcFile, key: int): (k: Kind) {
    if key <= file.maxId then Branch(key) else Group(key)
  }

  /** The table of shared ids points at nodes of the right kind, and a leaf hangs under its branch. */
  ghost predicate Points(file: IfcFile, nodes: map<nat, Node>, shared: map<int, NodesInfo>) {
    forall key :: key in shared ==> PointsAt(file, nodes, key, shared[key])
  }

  ghost predicate PointsAt(file: IfcFile, nodes: map<nat, Node>, key: int, info: NodesInfo) {
    && (info.branch.Some? ==> info.branch.value in nodes && nodes[info.branch.value].kind == BranchKind(file, key))
    && (info.leaf.Some? ==>
          key in file.objects && info.leaf.value in nodes && nodes[info.leaf.value].kind == Leaf(key))
    && (info.branch.Some? && info.leaf.Some? ==> nodes[info.leaf.value].parent == info.branch)
  }

  /** Every node but the root is in the table: no object has two leaves or two branches. */
  ghost predicate Listed(nodes: map<nat, Node>, shared: map<int, NodesInfo>) {
    forall id :: id in nodes ==>
      match nodes[id].kind
      case RootNode => true
      case Branch(o) => EntryOf(shared, o).branch == Some(id)
      case Leaf(o) => EntryOf(shared, o).leaf == Some(id)
      case Group(k) => EntryOf(shared, k).branch == Some(id)
  }

  /** Registering a new node in the table. */
  lemma AddKeepsTable(
    file: IfcFile, was: map<nat, Node>, shared: map<int, NodesInfo>, id: nat, node: Node, key: int, info: NodesInfo)
    requires Points(file, was, shared) && Listed(was, shared) && id !in was
    requires forall o :: o in file.objects ==> o <= file.maxId
    requires var before := EntryOf(shared, key);
             match node.kind
             case RootNode => false
             case Branch(o) => o == key <= file.maxId && before == NO_NODES && info == NodesInfo(Some(id), None)
             case Group(k) => k == key > file.maxId && before.branch.None? && info == before.(branch := Some(id))
             case Leaf(o) =>
               && o == key && key in file.objects && before.leaf.None? && info == before.(leaf := Some(id))
               && (info.branch.Some? ==> node.parent == info.branch)
    ensures Points(file, was[id := node], shared[key := info]) && Listed(was[id := node], shared[key := info])
  {
  }

  /** Registering a branch above an existing leaf, which is then hung under it. */
  lemma BranchAboveKeepsTable(
    file: IfcFile, was: map<nat, Node>, shared: map<int, NodesInfo>, id: nat, node: Node, key: int, leaf: nat)
    requires Points(file, was, shared) && Listed(was, shared) && id !in was
    requires key <= file.maxId && EntryOf(shared, key) == NodesInfo(None, Some(leaf)) && node.kind == Branch(key)
    ensures leaf in was
    ensures var now := Reparent(was[id := node], leaf, id);
            var shared' := shared[key := NodesInfo(Some(id), Some(leaf))];
            Points(file, now, shared') && Listed(now, shared')
  {
  }

  predicate Represents(kind: Kind, o: int) {
    kind == Branch(o) || kind == Leaf(o)
  }

  ghost function NodesOf(nodes: map<nat, Node>, o: int): (r: set<nat>) {
    set id | id in nodes && Represents(nodes[id].kind, o)
  }

  /** An object has a metadata node exactly when it has transformation nodes, which are then the
      parents of that metadata node; no two objects share one. */
  ghost predicate MetadataExact(nodes: map<nat, Node>, ids: map<int, nat>, parents: map<nat, set<nat>>) {
    && (forall o :: o in ids ==> ids[o] in parents && parents[ids[o]] == NodesOf(nodes, o) && NodesOf(nodes, o) != {})
    && (forall o :: NodesOf(nodes, o) != {} ==> o in ids)
    && forall o, p {:trigger Separate(ids, o, p)} :: o in ids && p in ids && o != p ==> Separate(ids, o, p)
  }

  predicate Separate(ids: map<int, nat>, o: int, p: int)
    requires o in ids && p in ids
  {
    ids[o] != ids[p]
  }

  lemma AddChangesNodesOf(was: map<nat, Node>, id: nat, node: Node, o: int)
    requires id !in was
    ensures NodesOf(was[id := node], o) == NodesOf(was, o) + if Represents(node.kind, o) then {id} else {}
  {
  }

  lemma AddKeepsMetadata(
    was: map<nat, Node>, ids: map<int, nat>, parents: map<nat, set<nat>>, id: nat, node: Node, o: int, meta: nat)
    requires MetadataExact(was, ids, parents) && id !in was
    requires forall p :: Represents(node.kind, p) <==> p == o
    requires if o in ids then meta == ids[o] else meta !in parents
    ensures var before := if o in ids then parents[meta] else {};
            MetadataExact(was[id := node], ids[o := meta], parents[meta := before + {id}])
  {
    forall p ensures NodesOf(was[id := node], p) == NodesOf(was, p) + if p == o then {id} else {} {
      AddChangesNodesOf(was, id, node, p);
    }
  }

  lemma GroupKeepsMetadata(was: map<nat, Node>, ids: map<int, nat>, parents: map<nat, set<nat>>, id: nat, node: Node)
    requires MetadataExact(was, ids, parents) && id !in was && node.kind.Group?
    ensures MetadataExact(was[id := node], ids, parents)
  {
    forall p ensures NodesOf(was[id := node], p) == NodesOf(was, p) {
      AddChangesNodesOf(was, id, node, p);
    }
  }

  lemma ReparentKeepsMetadata(
    was: map<nat, Node>, ids: map<int, nat>, parents: map<nat, set<nat>>, leaf: nat, branch: nat)
    requires MetadataExact(was, ids, parents) && leaf in was
    ensures MetadataExact(Reparent(was, leaf, branch), ids, parents)
  {
    forall o ensures NodesOf(Reparent(was, leaf, branch), o) == NodesOf(was, o) {
    }
  }

  // ----- meshes

  datatype Mesh = Mesh(parent: nat, vertices: seq<Vec3>)

  /** One triangulated element of the file. */
  datatype Element = Element(product: int, matrix: Matrix, vertices: seq<Vec3>, hasFaces: bool, isSpace: bool)

  /** Seen through a transform, the stored vertices are where the triangulation put them, up to what the
      last row of its matrix is off. */
  ghost predicate Seen(m: Matrix, mesh: Mesh, source: Element) {
    && |mesh.vertices| == |source.vertices|
    && forall i :: 0 <= i < |mesh.vertices| ==>
         Apply(m, mesh.vertices[i]) == SeenFrom(m, source.matrix, source.vertices[i])
  }

  /** Seen through a transform, the stored vertices are exactly where the triangulation put them. */
  ghost predicate InPlace(m: Matrix, mesh: Mesh, source: Element) {
    && |mesh.vertices| == |source.vertices|
    && forall i :: 0 <= i < |mesh.vertices| ==> Apply(m, mesh.vertices[i]) == Apply(source.matrix, source.vertices[i])
  }

  /** The mesh of an element hangs where it belongs, and its vertices are where the file put them. */
  ghost predicate Stands(file: IfcFile, nodes: map<nat, Node>, cache: map<nat, Matrix>, mesh: Mesh, e: Element) {
    && e.product in file.objects && mesh.parent in nodes && nodes[mesh.parent].kind == MeshKind(file, e)
    && Seen(At(cache, mesh.parent), mesh, e)
  }

  ghost predicate AllStand(
    file: IfcFile, nodes: map<nat, Node>, cache: map<nat, Matrix>, meshes: seq<Mesh>, sources: seq<Element>)
  {
    && |meshes| == |sources|
    && forall i {:trigger Stands(file, nodes, cache, meshes[i], sources[i])} :: 0 <= i < |meshes| ==>
         Stands(file, nodes, cache, meshes[i], sources[i])
  }

  /** Meshes stay where they are while the tree grows. */
  lemma {:induction false} AllStandLater(
    file: IfcFile, was: map<nat, Node>, cache: map<nat, Matrix>, now: map<nat, Node>, cache': map<nat, Matrix>,
    meshes: seq<Mesh>, sources: seq<Element>)
    requires AllStand(file, was, cache, meshes, sources) && Extends(was, cache, now, cache')
    ensures AllStand(file, now, cache', meshes, sources)
  {
    forall i | 0 <= i < |meshes| ensures Stands(file, now, cache', meshes[i], sources[i]) {
      assert Stands(file, was, cache, meshes[i], sources[i]);
    }
  }

  lemma {:induction false} OneMoreStands(
    file: IfcFile, nodes: map<nat, Node>, cache: map<nat, Matrix>, meshes: seq<Mesh>, sources: seq<Element>,
    mesh: Mesh, e: Element)
    requires AllStand(file, nodes, cache, meshes, sources) && Stands(file, nodes, cache, mesh, e)
    ensures AllStand(file, nodes, cache, meshes + [mesh], sources + [e])
  {
    forall i | 0 <= i < |meshes| ensures Stands(file, nodes, cache, meshes[i], sources[i]) {
    }
  }

  /** With an exact last row there is nothing off. */
  lemma AffineIsInPlace(m: Matrix, mesh: Mesh, source: Element)
    requires IsTranslation(m) && Seen(m, mesh, source) && Affine(source.matrix)
    ensures InPlace(m, mesh, source)
  {
    var t: Vec3 :| m == Translate(t);
    forall i | 0 <= i < |mesh.vertices| ensures Apply(m, mesh.vertices[i]) == Apply(source.matrix, source.vertices[i]) {
      AffineIsSeenInPlace(m, t, source.matrix, source.vertices[i]);
    }
  }

  /** Transforms all vertices; none if the check of the last row ends the process. */
  method Transformed(m: Matrix, vs: seq<Vec3>) returns (r: Option<seq<Vec3>>)
    ensures r.None? <==> vs != [] && LastRowIsOff(m)
    ensures r.Some? ==> |r.value| == |vs| && forall i :: 0 <= i < |vs| ==> r.value[i] == Apply(m, vs[i])
  {
    var points := [];
    for i := 0 to |vs|
      invariant |points| == i && (i > 0 ==> Passes(m))
      invariant forall j :: 0 <= j < i ==> points[j] == Apply(m, vs[j])
    {
      var p := Checked(m, vs[i]);
      if p.None? {
        return None;
      }
      points := points + [p.value];
    }
    r := Some(points);
  }

  /** The corrective transform: seen through the parent's transform, every vertex is where the
      element's own matrix puts it, up to what its last row is off. */
  method Corrected(parentMat: Matrix, original: Matrix, vs: seq<Vec3>) returns (r: Option<seq<Vec3>>)
    requires IsTranslation(parentMat)
    ensures r.None? <==> vs != [] && LastRowIsOff(original)
    ensures r.Some? ==>
              |r.value| == |vs|
              && forall i :: 0 <= i < |vs| ==>
                   Apply(parentMat, r.value[i]) == SeenFrom(parentMat, original, vs[i])
  {
    var correction := Mul(Inverse(parentMat), original);
    r := Transformed(correction, vs);
    ghost var t: Vec3 :| parentMat == Translate(t);
    CorrectionPasses(parentMat, t, original);
    forall i | r.Some? && 0 <= i < |vs| ensures Apply(parentMat, r.value[i]) == SeenFrom(parentMat, original, vs[i]) {
      CorrectionIsSeen(parentMat, t, original, vs[i]);
    }
  }

  // ----- which nodes there are, and where

  /** The kind of node that an object hangs under: elements whose parent is none are grouped by type. */
  function ParentKind(file: IfcFile, o: int): (k: Kind)
    requires o in file.objects
  {
    var ifc := file.objects[o];
    if ifc.parent.None? then RootNode
    else if ifc.isElement && !IsElement(file, ifc.parent.value) then
      Group(file.maxId + ifc.parent.value + ifc.typeId + 1)
    else Branch(ifc.parent.value)
  }

  predicate IsElement(file: IfcFile, o: int) {
    o in file.objects && file.objects[o].isElement
  }

  /** The kinds of all nodes above those of an object, but for the root. */
  ghost function Above(file: IfcFile, rank: int -> nat, o: int): (r: set<Kind>)
    requires ValidFile(file, rank) && o in file.objects
    decreases rank(o)
  {
    if file.objects[o].parent.None? then {}
    else
      var p := file.objects[o].parent.value;
      {ParentKind(file, o), Branch(p)} + Above(file, rank, p)
  }

  ghost function KindsOf(nodes: map<nat, Node>): (r: set<Kind>) {
    set id | id in nodes :: nodes[id].kind
  }

  /** A node of some kind may hang under one of another. A group hangs under the branch of the parent of one of
      the objects in it. */
  ghost predicate HangsUnder(file: IfcFile, rank: int -> nat, kind: Kind, above: Kind)
    requires ValidFile(file, rank)
  {
    match kind
    case RootNode => false
    case Branch(o) => o in file.objects && above == ParentKind(file, o)
    case Leaf(o) => o in file.objects && (above == Branch(o) || above == ParentKind(file, o))
    case Group(_) => exists o :: o in file.objects && ParentKind(file, o) == kind && above == BranchOfParent(file, o)
  }

  function BranchOfParent(file: IfcFile, o: int): (k: Kind)
    requires o in file.objects
  {
    if file.objects[o].parent.Some? then Branch(file.objects[o].parent.value) else RootNode
  }

  /** The translation by the centre of the hull of an element, as far as its coordinates are finite. */
  ghost predicate Centres(limit: real, e: Element, m: Matrix) {
    exists b: Box :: IsHullOf(limit, WorldVertices(e), b) && m == Translate(b.Center())
  }

  ghost predicate IsHullOf(limit: real, points: seq<Vec3>, b: Box) {
    && (points == [] ==> b == EmptyBox(limit))
    && (points != [] && AllFinite(points, limit) ==> IsHull(points, b))
  }

  function WorldVertices(e: Element): (r: seq<Vec3>) {
    seq(|e.vertices|, i requires 0 <= i < |e.vertices| => Apply(e.matrix, e.vertices[i]))
  }

  /** The imported elements of which a tree is made. */
  ghost predicate KnownElements(file: IfcFile, made: seq<Element>) {
    forall k :: 0 <= k < |made| ==> made[k].product in file.objects
  }

  ghost predicate Makes(file: IfcFile, rank: int -> nat, e: Element, kind: Kind)
    requires ValidFile(file, rank) && e.product in file.objects
  {
    if kind.Leaf? then !e.isSpace && kind.owner == e.product else kind in Above(file, rank, e.product)
  }

  /** The k-th element is the first that needs a node of this kind. */
  ghost predicate FirstMakes(file: IfcFile, rank: int -> nat, made: seq<Element>, k: nat, kind: Kind)
    requires ValidFile(file, rank) && KnownElements(file, made)
  {
    && k < |made| && Makes(file, rank, made[k], kind)
    && forall j :: 0 <= j < k ==> !Makes(file, rank, made[j], kind)
  }

  /** A space takes its centre to the node that it hangs under, unless that is needed further above. */
  ghost predicate Enters(file: IfcFile, rank: int -> nat, e: Element, kind: Kind)
    requires ValidFile(file, rank) && e.product in file.objects
  {
    var parent := file.objects[e.product].parent;
    && e.isSpace && ParentKind(file, e.product) == kind
    && parent.Some? && kind !in Above(file, rank, parent.value)
  }

  ghost predicate LeafBefore(made: seq<Element>, k: nat, kind: Kind) {
    kind.Branch? && exists j :: 0 <= j < k && j < |made| && IsLeafOf(made[j], kind.owner)
  }

  predicate IsLeafOf(e: Element, o: int) {
    e.product == o && !e.isSpace
  }

  /** The local matrix of a node: the first element that needs it has made it. A leaf is moved to the centre of
      that element. Another node has the identity, except the first node above a space, unless it was put
      above a leaf. */
  ghost predicate Origin(
    file: IfcFile, rank: int -> nat, limit: real, made: seq<Element>, kind: Kind, local: Matrix, k: nat)
    requires ValidFile(file, rank) && KnownElements(file, made)
  {
    && FirstMakes(file, rank, made, k, kind)
    && if kind.Leaf? || (Enters(file, rank, made[k], kind) && !LeafBefore(made, k, kind))
       then Centres(limit, made[k], local)
       else local == IDENTITY
  }

  ghost predicate Explained(
    file: IfcFile, rank: int -> nat, limit: real, made: seq<Element>, kind: Kind, local: Matrix)
    requires ValidFile(file, rank) && KnownElements(file, made)
  {
    exists k: nat :: Origin(file, rank, limit, made, kind, local, k)
  }

  /** The node hangs in its place, all nodes above its object are there, and its local matrix is explained. */
  ghost predicate Fits(
    file: IfcFile, rank: int -> nat, limit: real, made: seq<Element>, nodes: map<nat, Node>, node: Node)
    requires ValidFile(file, rank) && KnownElements(file, made)
  {
    && node.parent.Some? && node.parent.value in nodes
    && HangsUnder(file, rank, node.kind, nodes[node.parent.value].kind)
    && (node.kind.Branch? || node.kind.Leaf? ==> Above(file, rank, node.kind.owner) <= KindsOf(nodes))
    && Explained(file, rank, limit, made, node.kind, node.local)
  }

  /** All nodes that an element needs are there. */
  ghost predicate Reached(file: IfcFile, rank: int -> nat, nodes: map<nat, Node>, e: Element)
    requires ValidFile(file, rank)
  {
    && e.product in file.objects && Above(file, rank, e.product) <= KindsOf(nodes)
    && (!e.isSpace ==> Leaf(e.product) in KindsOf(nodes))
  }

  /** The tree is made of `made`, all of which but perhaps the last is `done`. */
  ghost predicate MadeOf(
    file: IfcFile, rank: int -> nat, limit: real, nodes: map<nat, Node>, done: seq<Element>, made: seq<Element>)
  {
    && ValidFile(file, rank) && KnownElements(file, made) && done <= made && |made| <= |done| + 1
    && (forall id {:trigger Fits(file, rank, limit, made, nodes, nodes[id])} :: id in nodes && id != ROOT ==>
          Fits(file, rank, limit, made, nodes, nodes[id]))
    && forall k {:trigger Reached(file, rank, nodes, done[k])} :: 0 <= k < |done| ==>
         Reached(file, rank, nodes, done[k])
  }

  lemma {:induction false} FitsLater(
    file: IfcFile, rank: int -> nat, limit: real, made: seq<Element>, was: map<nat, Node>, now: map<nat,
    Node>, node: Node)
    requires ValidFile(file, rank) && KnownElements(file, made) && Fits(file, rank, limit, made, was, node)
    requires forall id :: id in was ==> id in now && now[id].kind == was[id].kind
    ensures Fits(file, rank, limit, made, now, node)
  {
    KindsGrow(was, now);
  }

  lemma KindsGrow(was: map<nat, Node>, now: map<nat, Node>)
    requires forall id :: id in was ==> id in now && now[id].kind == was[id].kind
    ensures KindsOf(was) <= KindsOf(now)
  {
    forall kind | kind in KindsOf(was) ensures kind in KindsOf(now) {
      var id :| id in was && was[id].kind == kind;
      assert id in now;
    }
  }

  lemma {:induction false} AddKeepsMadeOf(
    file: IfcFile, rank: int -> nat, limit: real, was: map<nat, Node>, done: seq<Element>, made: seq<Element>,
    id: nat, node: Node, now: map<nat, Node>)
    requires MadeOf(file, rank, limit, was, done, made) && id !in was && now == was[id := node]
    requires Fits(file, rank, limit, made, was, node)
    ensures MadeOf(file, rank, limit, now, done, made)
  {
    KindsGrow(was, now);
    forall k | k in now && k != ROOT ensures Fits(file, rank, limit, made, now, now[k]) {
      FitsLater(file, rank, limit, made, was, now, now[k]);
    }
    forall k | 0 <= k < |done| ensures Reached(file, rank, now, done[k]) {
      assert Reached(file, rank, was, done[k]);
    }
  }

  /** A leaf that is hung under the branch of its object. */
  lemma {:induction false} ReparentKeepsMadeOf(
    file: IfcFile, rank: int -> nat, limit: real, was: map<nat, Node>, done: seq<Element>, made: seq<Element>,
    leaf: nat, branch: nat, now: map<nat, Node>)
    requires MadeOf(file, rank, limit, was, done, made) && leaf in was && leaf != ROOT && branch in was
    requires was[leaf].kind.Leaf? && was[branch].kind == Branch(was[leaf].kind.owner)
    requires now == Reparent(was, leaf, branch)
    ensures MadeOf(file, rank, limit, now, done, made)
  {
    KindsGrow(was, now);
    forall k | k in now && k != ROOT ensures Fits(file, rank, limit, made, now, now[k]) {
      assert Fits(file, rank, limit, made, was, was[k]);
      if k != leaf {
        FitsLater(file, rank, limit, made, was, now, now[k]);
      }
    }
    forall k | 0 <= k < |done| ensures Reached(file, rank, now, done[k]) {
      assert Reached(file, rank, was, done[k]);
    }
  }

  /** Beginning with a further element. */
  lemma {:induction false} BeginKeepsMadeOf(
    file: IfcFile, rank: int -> nat, limit: real, nodes: map<nat, Node>, made: seq<Element>, e: Element)
    requires MadeOf(file, rank, limit, nodes, made, made) && e.product in file.objects
    ensures MadeOf(file, rank, limit, nodes, made, made + [e])
  {
    forall id | id in nodes && id != ROOT ensures Fits(file, rank, limit, made + [e], nodes, nodes[id]) {
      assert Fits(file, rank, limit, made, nodes, nodes[id]);
      ExplainedLater(file, rank, limit, made, e, nodes[id].kind, nodes[id].local);
    }
  }

  lemma {:induction false} ExplainedLater(
    file: IfcFile, rank: int -> nat, limit: real, made: seq<Element>, e: Element, kind: Kind, local: Matrix)
    requires ValidFile(file, rank) && KnownElements(file, made) && KnownElements(file, made + [e])
    requires Explained(file, rank, limit, made, kind, local)
    ensures Explained(file, rank, limit, made + [e], kind, local)
  {
    var k: nat :| Origin(file, rank, limit, made, kind, local, k);
    var more := made + [e];
    assert more[k] == made[k] && (LeafBefore(more, k, kind) <==> LeafBefore(made, k, kind)) by {
      assert more[..k] == made[..k];
      assert forall j :: 0 <= j < k ==> more[j] == made[j];
    }
    assert FirstMakes(file, rank, more, k, kind) by {
      forall j | 0 <= j < k ensures !Makes(file, rank, more[j], kind) {
        assert more[j] == made[j];
      }
    }
    assert Origin(file, rank, limit, more, kind, local, k);
  }

  /** Done with the element. */
  lemma {:induction false} EndKeepsMadeOf(
    file: IfcFile, rank: int -> nat, limit: real, nodes: map<nat, Node>, done: seq<Element>, e: Element)
    requires MadeOf(file, rank, limit, nodes, done, done + [e]) && Reached(file, rank, nodes, e)
    ensures MadeOf(file, rank, limit, nodes, done + [e], done + [e])
  {
  }

  /** Objects above have smaller ranks, and what is above them is above. */
  lemma {:induction false} AboveIsLower(file: IfcFile, rank: int -> nat, o: int, p: int)
    requires ValidFile(file, rank) && o in file.objects && Branch(p) in Above(file, rank, o)
    ensures p in file.objects && rank(p) < rank(o) && Above(file, rank, p) <= Above(file, rank, o)
    decreases rank(o)
  {
    var parent := file.objects[o].parent.value;
    if p != parent {
      AboveIsLower(file, rank, parent, p);
    }
  }

  /** What is needed above an object that is needed itself has the identity. */
  lemma {:induction false} NotEntered(file: IfcFile, rank: int -> nat, e: Element, o: int)
    requires ValidFile(file, rank) && e.product in file.objects && o in file.objects
    requires Branch(o) in Above(file, rank, e.product) && file.objects[o].parent.Some?
    ensures ParentKind(file, o) in Above(file, rank, e.product) && !Enters(file, rank, e, ParentKind(file, o))
    ensures BranchOfParent(file, o) in Above(file, rank, e.product)
    ensures !Enters(file, rank, e, BranchOfParent(file, o))
  {
    AboveIsLower(file, rank, e.product, o);
    var parent := file.objects[e.product].parent.value;
    if o != parent {
      AboveIsLower(file, rank, parent, o);
    }
  }

  /** The element that is being imported is the first that needs a node which is not there. */
  lemma {:induction false} MadeFirst(
    file: IfcFile, rank: int -> nat, limit: real, nodes: map<nat, Node>, done: seq<Element>, e: Element, kind: Kind)
    requires MadeOf(file, rank, limit, nodes, done, done + [e]) && e.product in file.objects
    requires kind !in KindsOf(nodes) && Makes(file, rank, e, kind)
    ensures FirstMakes(file, rank, done + [e], |done|, kind)
  {
    var made := done + [e];
    forall j | 0 <= j < |done| ensures !Makes(file, rank, made[j], kind) {
      assert made[j] == done[j] && Reached(file, rank, nodes, done[j]);
    }
  }

  /** A leaf that is there was needed by an element that is not below it. */
  lemma {:induction false} LeafIsBefore(
    file: IfcFile, rank: int -> nat, limit: real, nodes: map<nat, Node>, done: seq<Element>, e: Element, leaf: nat)
    requires MadeOf(file, rank, limit, nodes, done, done + [e]) && e.product in file.objects
    requires leaf in nodes && leaf != ROOT
    requires nodes[leaf].kind.Leaf? && Branch(nodes[leaf].kind.owner) in Above(file, rank, e.product)
    ensures LeafBefore(done + [e], |done|, Branch(nodes[leaf].kind.owner))
  {
    var made, o := done + [e], nodes[leaf].kind.owner;
    assert Fits(file, rank, limit, made, nodes, nodes[leaf]);
    var k: nat :| Origin(file, rank, limit, made, Leaf(o), nodes[leaf].local, k);
    AboveIsLower(file, rank, e.product, o);
    assert IsLeafOf(made[k], o) && made[|done|] == e;
  }

  /** Without a leaf of an object, no element has needed one. */
  lemma {:induction false} NoLeafBefore(
    file: IfcFile, rank: int -> nat, limit: real, nodes: map<nat, Node>, done: seq<Element>, e: Element, o: int)
    requires MadeOf(file, rank, limit, nodes, done, done + [e]) && Leaf(o) !in KindsOf(nodes)
    ensures !LeafBefore(done + [e], |done|, Branch(o))
  {
    var made := done + [e];
    forall j | 0 <= j < |done| ensures !IsLeafOf(made[j], o) {
      assert made[j] == done[j] && Reached(file, rank, nodes, done[j]);
    }
  }

  // ----- the importer

  /** The matrix of the element does not pass the check, which is made for its first vertex. */
  ghost predicate EndsProcess(e: Element) {
    e.vertices != [] && LastRowIsOff(e.matrix)
  }

  class IfcSerialiser {
    const mul: MatrixProduct
    const file: IfcFile
    ghost const rank: int -> nat
    const limit: real  // the largest finite double
    var nodes: map<nat, Node>
    var nextNode: nat
    var sharedIds: map<int, NodesInfo>
    var parentLocalToWorld: map<nat, Matrix>
    var metadataUniqueIds: map<int, nat>
    var metadataParents: map<nat, set<nat>>
    var nextMetadata: nat
    var meshes: seq<Mesh>
    ghost var sources: seq<Element>  // what the meshes were made of
    ghost var made: seq<Element>  // with the element that is being imported

    ghost predicate Valid()
      reads this
    {
      && TreeValid()
      && MetadataValid()
      && Points(file, nodes, sharedIds) && Listed(nodes, sharedIds)
      && MadeOf(file, rank, limit, nodes, sources, made)
      && AllStand(file, nodes, parentLocalToWorld, meshes, sources)
    }

    /** An element is being imported. */
    ghost predicate Importing(e: Element)
      reads this
    {
      made == sources + [e] && e.product in file.objects
    }

    ghost predicate TreeValid()
      reads this
    {
      && Lawful(mul) && ValidFile(file, rank)
      && IsTree(nodes) && (forall id :: id in nodes ==> id < nextNode)
      && CacheExact(mul, nodes, parentLocalToWorld)
    }

    ghost predicate MetadataValid()
      reads this
    {
      && MetadataExact(nodes, metadataUniqueIds, metadataParents)
      && forall id :: id in metadataParents ==> id < nextMetadata
    }

    /** Nothing that was built before is lost or has moved. */
    twostate predicate Grown()
      reads this
    {
      && Extends(old(nodes), old(parentLocalToWorld), nodes, parentLocalToWorld)
      && meshes == old(meshes) && sources == old(sources) && made == old(made)
    }

    constructor (file: IfcFile, ghost rank: int -> nat, limit: real)
      requires ValidFile(file, rank)
      ensures Valid() && mul == Mul && this.file == file && this.rank == rank && this.limit == limit
      ensures meshes == [] && sources == [] && made == [] && nodes.Keys == {ROOT}
    {
      MatrixProductIsLawful();
      mul := Mul;
      this.file, this.rank, this.limit := file, rank, limit;
      nodes := map[ROOT := Node(RootNode, IDENTITY, None)];
      nextNode := 1;
      sharedIds, parentLocalToWorld := map[], map[];
      metadataUniqueIds, metadataParents, nextMetadata := map[], map[], 0;
      meshes, sources, made := [], [], [];
    }

    /** `parentLocalToWorld[id]`: a missing entry is created as the identity. */
    method LookUpWorld(id: nat) returns (m: Matrix)
      requires TreeValid() && id in nodes
      modifies this`parentLocalToWorld
      ensures TreeValid() && id in parentLocalToWorld && m == parentLocalToWorld[id]
      ensures forall k :: At(parentLocalToWorld, k) == At(old(parentLocalToWorld), k)
    {
      if id !in parentLocalToWorld {
        LookUpKeeps(mul, nodes, parentLocalToWorld, id);
        parentLocalToWorld := parentLocalToWorld[id := IDENTITY];
      }
      m := parentLocalToWorld[id];
    }

    /** Adds a node and its cached transform. */
    method AppendNode(kind: Kind, parentId: nat, local: Matrix) returns (id: nat)
      requires TreeValid() && !kind.RootNode? && IsTranslation(local)
      requires parentId in nodes && !nodes[parentId].kind.Leaf?
      modifies this`nodes, this`nextNode, this`parentLocalToWorld
      ensures TreeValid() && Grown()
      ensures id == old(nextNode) && id !in old(nodes) && nodes == old(nodes)[id := Node(kind, local, Some(parentId))]
      ensures At(parentLocalToWorld, id) == mul(At(old(parentLocalToWorld), parentId), local)
    {
      var parentMat := LookUpWorld(parentId);
      AddExtends(
        nodes, old(parentLocalToWorld), parentLocalToWorld, nextNode, Node(kind, local, Some(parentId)),
        mul(parentMat, local));
      id := AppendBelow(kind, parentId, parentMat, local);
    }

    method AppendBelow(kind: Kind, parentId: nat, parentMat: Matrix, local: Matrix) returns (id: nat)
      requires TreeValid() && !kind.RootNode? && IsTranslation(local)
      requires parentId in nodes && !nodes[parentId].kind.Leaf?
      requires parentId in parentLocalToWorld && parentLocalToWorld[parentId] == parentMat
      modifies this`nodes, this`nextNode, this`parentLocalToWorld
      ensures TreeValid()
      ensures id == old(nextNode) && id !in old(nodes) && nodes == old(nodes)[id := Node(kind, local, Some(parentId))]
      ensures parentLocalToWorld == old(parentLocalToWorld)[id := mul(parentMat, local)]
    {
      id := nextNode;
      AddKeepsBoth(mul, nodes, parentLocalToWorld, id, kind, local, parentId);
      parentLocalToWorld := parentLocalToWorld[id := mul(parentMat, local)];
      nodes := nodes[id := Node(kind, local, Some(parentId))];
      nextNode := nextNode + 1;
    }

    /** Makes the node a parent of the object's metadata node, which is created on first use. */
    method LinkMetadata(o: int, id: nat, ghost node: Node)
      requires MetadataValid() && id !in nodes
      requires forall p :: Represents(node.kind, p) <==> p == o
      modifies this`metadataUniqueIds, this`metadataParents, this`nextMetadata
      ensures MetadataExact(nodes[id := node], metadataUniqueIds, metadataParents)
      ensures forall id :: id in metadataParents ==> id < nextMetadata
    {
      if o in metadataUniqueIds {
        var meta := metadataUniqueIds[o];
        AddKeepsMetadata(nodes, metadataUniqueIds, metadataParents, id, node, o, meta);
        assert metadataUniqueIds[o := meta] == metadataUniqueIds;
        metadataParents := metadataParents[meta := metadataParents[meta] + {id}];
      } else {
        AddKeepsMetadata(nodes, metadataUniqueIds, metadataParents, id, node, o, nextMetadata);
        metadataParents := metadataParents[nextMetadata := {} + {id}];
        metadataUniqueIds := metadataUniqueIds[o := nextMetadata];
        nextMetadata := nextMetadata + 1;
      }
    }

    /** Creates a node for an object, its cached transform and its metadata link. */
    method CreateTransformationNode(kind: Kind, parentId: nat, local: Matrix) returns (id: nat)
      requires TreeValid() && MetadataValid() && (kind.Branch? || kind.Leaf?) && IsTranslation(local)
      requires parentId in nodes && !nodes[parentId].kind.Leaf?
      modifies this`nodes, this`nextNode, this`parentLocalToWorld,
               this`metadataUniqueIds, this`metadataParents, this`nextMetadata
      ensures TreeValid() && MetadataValid() && Grown()
      ensures id !in old(nodes) && nodes == old(nodes)[id := Node(kind, local, Some(parentId))]
      ensures At(parentLocalToWorld, id) == mul(At(old(parentLocalToWorld), parentId), local)
    {
      LinkMetadata(kind.owner, nextNode, Node(kind, local, Some(parentId)));
      id := AppendNode(kind, parentId, local);
    }

    /** Creates the leaf or the first node of an object. */
    method AddNode(o: int, leaf: bool, parentId: nat, local: Matrix) returns (id: nat)
      requires Valid() && o in file.objects && IsTranslation(local)
      requires parentId in nodes && !nodes[parentId].kind.Leaf?
      requires var info := EntryOf(sharedIds, o);
               if leaf
               then info.leaf.None? && (info.branch.Some? ==> info.branch.value == parentId)
               else info == NO_NODES
      requires Fits(
                 file, rank, limit, made, nodes, Node(if leaf then Leaf(o) else Branch(o), local, Some(parentId)))
      modifies this
      ensures Valid() && Grown()
      ensures id in nodes && nodes[id].kind == (if leaf then Leaf(o) else Branch(o))
      ensures forall key :: key != o ==> EntryOf(sharedIds, key) == EntryOf(old(sharedIds), key)
    {
      var kind := if leaf then Leaf(o) else Branch(o);
      var info := EntryOf(sharedIds, o);
      id := CreateTransformationNode(kind, parentId, local);
      AddKeepsMadeOf(
        file, rank, limit, old(nodes), sources, made, id, Node(kind, local, Some(parentId)), nodes);
      AllStandLater(
        file, old(nodes), old(parentLocalToWorld), nodes, parentLocalToWorld, meshes, sources);
      info := if leaf then info.(leaf := Some(id)) else info.(branch := Some(id));
      AddKeepsTable(file, old(nodes), sharedIds, id, nodes[id], o, info);
      sharedIds := sharedIds[o := info];
    }

    /** Creates the branch of an object that has only a leaf, and hangs the leaf under it. */
    method InsertBranchAboveLeaf(o: int, ghost e: Element) returns (id: nat)
      requires Valid() && o in file.objects && Importing(e) && Branch(o) in Above(file, rank, e.product)
      requires EntryOf(sharedIds, o).branch.None? && EntryOf(sharedIds, o).leaf.Some?
      modifies this
      ensures Valid() && Grown()
      ensures id in nodes && nodes[id].kind == Branch(o)
      ensures forall key :: key != o ==> EntryOf(sharedIds, key) == EntryOf(old(sharedIds), key)
    {
      var leaf := EntryOf(sharedIds, o).leaf.value;
      assert Attached(nodes, leaf);
      ghost var node := Node(Branch(o), IDENTITY, nodes[leaf].parent);
      BranchFits(o, leaf, node, e);
      id := CreateBranchAbove(o, leaf);
      AllStandLater(
        file, old(nodes), old(parentLocalToWorld), nodes, parentLocalToWorld, meshes, sources);
      ghost var mid := old(nodes)[id := node];
      AddKeepsMadeOf(file, rank, limit, old(nodes), sources, made, id, node, mid);
      ReparentKeepsMadeOf(file, rank, limit, mid, sources, made, leaf, id, nodes);
      BranchAboveKeepsTable(file, old(nodes), sharedIds, id, node, o, leaf);
      sharedIds := sharedIds[o := NodesInfo(Some(id), Some(leaf))];
    }

    /** A branch above a leaf takes its place, with the identity. */
    lemma BranchFits(o: int, leaf: nat, node: Node, e: Element)
      requires Valid() && Importing(e) && Branch(o) in Above(file, rank, e.product)
      requires EntryOf(sharedIds, o) == NodesInfo(None, Some(leaf))
      requires leaf in nodes && node == Node(Branch(o), IDENTITY, nodes[leaf].parent)
      ensures Fits(file, rank, limit, made, nodes, node)
    {
      NoSuchKind(Branch(o));
      assert nodes[leaf].kind == Leaf(o) && Fits(file, rank, limit, made, nodes, nodes[leaf]);
      MadeFirst(file, rank, limit, nodes, sources, e, Branch(o));
      LeafIsBefore(file, rank, limit, nodes, sources, e, leaf);
      assert Origin(file, rank, limit, made, Branch(o), IDENTITY, |sources|);
    }

    /** A kind whose entry in the table is missing. */
    lemma NoSuchKind(kind: Kind)
      requires Listed(nodes, sharedIds) && !kind.RootNode?
      requires match kind
               case Branch(o) => EntryOf(sharedIds, o).branch.None?
               case Leaf(o) => EntryOf(sharedIds, o).leaf.None?
               case Group(k) => EntryOf(sharedIds, k).branch.None?
               case RootNode => false
      ensures kind !in KindsOf(nodes)
    {
    }

    method CreateBranchAbove(o: int, leaf: nat) returns (id: nat)
      requires TreeValid() && MetadataValid() && leaf in nodes && nodes[leaf].kind.Leaf?
      modifies this`nodes, this`nextNode, this`parentLocalToWorld,
               this`metadataUniqueIds, this`metadataParents, this`nextMetadata
      ensures TreeValid() && MetadataValid() && Grown() && id !in old(nodes)
      ensures nodes == Reparent(old(nodes)[id := Node(Branch(o), IDENTITY, old(nodes)[leaf].parent)], leaf, id)
    {
      assert Attached(nodes, leaf);
      IdentityIsTranslation();
      id := CreateTransformationNode(Branch(o), nodes[leaf].parent.value, IDENTITY);
      ghost var mid := nodes;
      ReparentExtends(mid, parentLocalToWorld, leaf, id);
      HangUnder(leaf, id);
      ExtendsTwice(old(nodes), old(parentLocalToWorld), mid, parentLocalToWorld, nodes, parentLocalToWorld);
    }

    /** Gives a leaf another parent with the same accumulated transform. */
    method HangUnder(leaf: nat, branch: nat)
      requires TreeValid() && MetadataValid() && leaf in nodes && nodes[leaf].kind.Leaf?
      requires branch in nodes && !nodes[branch].kind.Leaf? && nodes[leaf].parent.Some?
      requires At(parentLocalToWorld, branch) == At(parentLocalToWorld, nodes[leaf].parent.value)
      modifies this`nodes
      ensures TreeValid() && MetadataValid() && nodes == Reparent(old(nodes), leaf, branch)
    {
      ReparentKeeps(mul, nodes, parentLocalToWorld, leaf, branch);
      ReparentKeepsMetadata(nodes, metadataUniqueIds, metadataParents, leaf, branch);
      nodes := Reparent(nodes, leaf, branch);
    }

    /** The local matrix that a node of this kind gets if the import of the element makes it. */
    ghost predicate MayMake(e: Element, kind: Kind, local: Matrix)
      requires ValidFile(file, rank)
    {
      && e.product in file.objects && kind in Above(file, rank, e.product)
      && if Enters(file, rank, e, kind) then Centres(limit, e, local) else local == IDENTITY
    }

    /** The import of the element may make the nodes above an object. A group is not made with the local
        matrix if it is made further above. */
    ghost predicate MayMakeAbove(e: Element, o: int, local: Matrix)
      requires ValidFile(file, rank) && o in file.objects
    {
      file.objects[o].parent.Some? ==>
        var above, branch := ParentKind(file, o), BranchOfParent(file, o);
        if above == branch then MayMake(e, branch, local)
        else
          && MayMake(e, branch, IDENTITY)
          && (MayMake(e, above, local) || above in Above(file, rank, file.objects[o].parent.value))
    }

    lemma MayMakeAncestors(e: Element, o: int)
      requires ValidFile(file, rank) && e.product in file.objects && o in file.objects
      requires IsLeafOf(e, o) || Branch(o) in Above(file, rank, e.product)
      ensures MayMakeAbove(e, o, IDENTITY)
    {
      if file.objects[o].parent.Some? && !IsLeafOf(e, o) {
        NotEntered(file, rank, e, o);
      }
    }

    lemma MayMakeForSpace(e: Element, local: Matrix)
      requires ValidFile(file, rank) && e.product in file.objects && e.isSpace && Centres(limit, e, local)
      ensures MayMakeAbove(e, e.product, local)
    {
      var parent := file.objects[e.product].parent;
      if parent.Some? && Branch(parent.value) in Above(file, rank, parent.value) {
        AboveIsLower(file, rank, parent.value, parent.value);
      }
    }

    /** The node that groups children of one type. The key of a group is a sum, so different pairs of
        parent and type may share a group. */
    method GetGroupNode(parent: int, typeId: nat, local: Matrix, ghost o: int, ghost e: Element) returns (id: nat)
      requires Valid() && Importing(e) && IsTranslation(local)
      requires o in file.objects && ParentKind(file, o).Group? && MayMakeAbove(e, o, local)
      requires file.objects[o].parent == Some(parent) && file.objects[o].typeId == typeId
      modifies this
      ensures Valid() && Grown()
      ensures id in nodes && nodes[id].kind == Group(file.maxId + parent + typeId + 1) == ParentKind(file, o)
      ensures Above(file, rank, o) <= KindsOf(nodes)
      ensures forall key :: key in file.objects && rank(key) >= rank(o) ==>
                EntryOf(sharedIds, key) == EntryOf(old(sharedIds), key)
      decreases rank(o), 1
    {
      IdentityIsTranslation();
      var parentId := GetTransformationNode(Some(parent), false, IDENTITY, e);
      ghost var mid, cache := nodes, parentLocalToWorld;
      id := GetGroupUnder(parentId, file.maxId + parent + typeId + 1, local, o, e);
      ExtendsTwice(old(nodes), old(parentLocalToWorld), mid, cache, nodes, parentLocalToWorld);
    }

    method GetGroupUnder(parentId: nat, groupId: int, local: Matrix, ghost o: int, ghost e: Element) returns (id: nat)
      requires Valid() && Importing(e) && IsTranslation(local) && groupId > file.maxId
      requires o in file.objects && ParentKind(file, o) == Group(groupId) && MayMakeAbove(e, o, local)
      requires parentId in nodes && nodes[parentId].kind == BranchOfParent(file, o)
      modifies this
      ensures Valid() && Grown()
      ensures id in nodes && nodes[id].kind == Group(groupId) && Above(file, rank, o) <= KindsOf(nodes)
      ensures forall other :: other != groupId ==> EntryOf(sharedIds, other) == EntryOf(old(sharedIds), other)
    {
      var info := EntryOf(sharedIds, groupId);
      if info.branch.Some? {
        id := info.branch.value;
      } else {
        GroupFits(o, parentId, local, e);
        id := AddGroup(groupId, parentId, local);
      }
      GroupIsAbove(parentId, id, o);
    }

    lemma GroupFits(o: int, parentId: nat, local: Matrix, e: Element)
      requires Valid() && Importing(e) && o in file.objects && ParentKind(file, o).Group? && MayMakeAbove(e, o, local)
      requires EntryOf(sharedIds, ParentKind(file, o).key).branch.None?
      requires parentId in nodes && nodes[parentId].kind == BranchOfParent(file, o)
      ensures Fits(file, rank, limit, made, nodes, Node(ParentKind(file, o), local, Some(parentId)))
    {
      var group := ParentKind(file, o);
      AllAboveIsThere(parentId, file.objects[o].parent.value);
      NoSuchKind(group);
      MadeFirst(file, rank, limit, nodes, sources, e, group);
      assert Origin(file, rank, limit, made, group, local, |sources|);
    }

    method AddGroup(key: int, parentId: nat, local: Matrix) returns (id: nat)
      requires Valid() && key > file.maxId && EntryOf(sharedIds, key).branch.None? && IsTranslation(local)
      requires parentId in nodes && !nodes[parentId].kind.Leaf?
      requires Fits(file, rank, limit, made, nodes, Node(Group(key), local, Some(parentId)))
      modifies this
      ensures Valid() && Grown()
      ensures id in nodes && nodes[id].kind == Group(key)
      ensures forall other :: other != key ==> EntryOf(sharedIds, other) == EntryOf(old(sharedIds), other)
    {
      var info := EntryOf(sharedIds, key).(branch := Some(nextNode));
      AddKeepsTable(file, nodes, sharedIds, nextNode, Node(Group(key), local, Some(parentId)), key, info);
      id := AppendGroup(key, parentId, local);
      AllStandLater(
        file, old(nodes), old(parentLocalToWorld), nodes, parentLocalToWorld, meshes, sources);
      AddKeepsMadeOf(
        file, rank, limit, old(nodes), sources, made, id, Node(Group(key), local, Some(parentId)), nodes);
      sharedIds := sharedIds[key := info];
    }

    /** A group has no metadata. */
    method AppendGroup(key: int, parentId: nat, local: Matrix) returns (id: nat)
      requires TreeValid() && MetadataValid() && IsTranslation(local)
      requires parentId in nodes && !nodes[parentId].kind.Leaf?
      modifies this`nodes, this`nextNode, this`parentLocalToWorld
      ensures TreeValid() && MetadataValid() && Grown()
      ensures id == old(nextNode) && id !in old(nodes)
      ensures nodes == old(nodes)[id := Node(Group(key), local, Some(parentId))]
    {
      GroupKeepsMetadata(nodes, metadataUniqueIds, metadataParents, nextNode, Node(Group(key), local, Some(parentId)));
      id := AppendNode(Group(key), parentId, local);
    }

    predicate ShouldGroupByType(o: int)
      requires o in file.objects && (file.objects[o].parent.Some? ==> file.objects[o].parent.value in file.objects)
    {
      var parent := file.objects[o].parent;
      parent.Some? && !file.objects[parent.value].isElement && file.objects[o].isElement
    }

    /** The node of the group or of the parent that an object hangs under. */
    method GetParentNode(o: int, local: Matrix, ghost e: Element) returns (id: nat)
      requires Valid() && Importing(e) && o in file.objects && IsTranslation(local)
      requires MayMakeAbove(e, o, local)
      modifies this
      ensures Valid() && Grown() && id in nodes
      ensures nodes[id].kind == ParentKind(file, o)
      ensures Above(file, rank, o) <= KindsOf(nodes)
      ensures forall key :: key in file.objects && rank(key) >= rank(o) ==>
                EntryOf(sharedIds, key) == EntryOf(old(sharedIds), key)
      decreases rank(o), 2
    {
      var ifc := file.objects[o];
      if ShouldGroupByType(o) {
        id := GetGroupNode(ifc.parent.value, ifc.typeId, local, o, e);
      } else {
        id := GetTransformationNode(ifc.parent, false, local, e);
      }
    }

    lemma NewNodeFits(o: int, leaf: bool, parentId: nat, local: Matrix, e: Element)
      requires Valid() && Importing(e) && o in file.objects && EntryOf(sharedIds, o).leaf.None?
      requires if leaf then IsLeafOf(e, o) && Centres(limit, e, local)
               else MayMake(e, Branch(o), local) && EntryOf(sharedIds, o).branch.None?
      requires parentId in nodes && Above(file, rank, o) <= KindsOf(nodes)
      requires nodes[parentId].kind == ParentKind(file, o) || (leaf && nodes[parentId].kind == Branch(o))
      ensures Fits(file, rank, limit, made, nodes, Node(if leaf then Leaf(o) else Branch(o), local, Some(parentId)))
    {
      var kind := if leaf then Leaf(o) else Branch(o);
      NoSuchKind(kind);
      NoSuchKind(Leaf(o));
      MadeFirst(file, rank, limit, nodes, sources, e, kind);
      NoLeafBefore(file, rank, limit, nodes, sources, e, o);
      assert Origin(file, rank, limit, made, kind, local, |sources|);
    }

    /** The leaf or the branch of an object, created on demand together with all its ancestors. */
    method GetTransformationNode(subject: Option<int>, leaf: bool, local: Matrix, ghost e: Element) returns (id: nat)
      requires Valid() && Importing(e) && (subject.Some? ==> subject.value in file.objects) && IsTranslation(local)
      requires subject.Some? && leaf ==> IsLeafOf(e, subject.value) && Centres(limit, e, local)
      requires subject.Some? && !leaf ==> MayMake(e, Branch(subject.value), local)
      modifies this
      ensures Valid() && Grown() && id in nodes
      ensures nodes[id].kind ==
              if subject.None? then RootNode else if leaf then Leaf(subject.value) else Branch(subject.value)
      ensures subject.Some? ==> Above(file, rank, subject.value) <= KindsOf(nodes)
      ensures forall key :: key in file.objects && (subject.Some? ==> rank(key) > rank(subject.value)) ==>
                EntryOf(sharedIds, key) == EntryOf(old(sharedIds), key)
      decreases if subject.None? then 0 else rank(subject.value) + 1, 0
    {
      if subject.None? {
        return ROOT;
      }
      var o := subject.value;
      var info := EntryOf(sharedIds, o);
      if leaf && info.leaf.Some? {
        id := info.leaf.value;
      } else if !leaf && info.branch.Some? {
        id := info.branch.value;
      } else if leaf && info.branch.Some? {
        assert Fits(file, rank, limit, made, nodes, nodes[info.branch.value]);
        NewNodeFits(o, true, info.branch.value, local, e);
        id := AddNode(o, true, info.branch.value, local);
      } else if !leaf && info.leaf.Some? {
        id := InsertBranchAboveLeaf(o, e);
      } else {
        IdentityIsTranslation();
        MayMakeAncestors(e, o);
        var parentId := GetParentNode(o, IDENTITY, e);
        NewNodeFits(o, leaf, parentId, local, e);
        id := AddNode(o, leaf, parentId, local);
      }
      AllAboveIsThere(id, o);
    }

    lemma AllAboveIsThere(id: nat, o: int)
      requires Valid() && id in nodes && Represents(nodes[id].kind, o)
      ensures o in file.objects && Above(file, rank, o) <= KindsOf(nodes)
    {
      assert Fits(file, rank, limit, made, nodes, nodes[id]);
    }

    lemma GroupIsAbove(parentId: nat, id: nat, o: int)
      requires Valid() && o in file.objects && ParentKind(file, o).Group?
      requires parentId in nodes && nodes[parentId].kind == BranchOfParent(file, o)
      requires id in nodes && nodes[id].kind == ParentKind(file, o)
      ensures Above(file, rank, o) <= KindsOf(nodes)
    {
      AllAboveIsThere(parentId, file.objects[o].parent.value);
    }

    // ----- import

    /** The node under which the meshes of an element are placed. */
    method GetParentId(e: Element, createTransform: bool, local: Matrix) returns (id: nat)
      requires Valid() && Importing(e) && IsTranslation(local)
      requires createTransform == !e.isSpace && Centres(limit, e, local)
      modifies this
      ensures Valid() && Grown() && id in nodes && nodes[id].kind == MeshKind(file, e)
      ensures Reached(file, rank, nodes, e)
    {
      if createTransform {
        id := GetTransformationNode(Some(e.product), true, local, e);
      } else {
        MayMakeForSpace(e, local);
        id := GetParentNode(e.product, local, e);
      }
    }

    /** Imports one triangulated element: its vertices are stored relative to the node they hang under. The
        process ends, before anything is changed, when the matrix does not pass the check. */
    method Import(e: Element) returns (ended: bool)
      requires Valid() && e.product in file.objects && made == sources
      modifies this
      ensures Valid() && made == sources
      ensures ended <==> EndsProcess(e)
      ensures forall id :: id in old(nodes) ==>
                id in nodes && At(parentLocalToWorld, id) == At(old(parentLocalToWorld), id)
      ensures ended || !e.hasFaces ==> meshes == old(meshes) && sources == old(sources) && nodes == old(nodes)
      ensures !ended && e.hasFaces ==>
                |meshes| == |old(meshes)| + 1 && meshes[..|old(meshes)|] == old(meshes) && sources == old(sources) + [e]
    {
      var points := Transformed(e.matrix, e.vertices);
      if points.None? {
        return true;
      }
      ended := false;
      if !e.hasFaces {
        return;
      }
      var bounds := Hull(points.value, limit);
      var newSpaceMat := Translate(bounds.Center());
      assert points.value == WorldVertices(e) && IsHullOf(limit, points.value, bounds);
      Begin(e);
      ImportMesh(e, newSpaceMat);
    }

    method ImportMesh(e: Element, newSpaceMat: Matrix)
      requires Valid() && Importing(e) && !EndsProcess(e)
      requires IsTranslation(newSpaceMat) && Centres(limit, e, newSpaceMat)
      modifies this
      ensures Valid() && Extends(old(nodes), old(parentLocalToWorld), nodes, parentLocalToWorld)
      ensures |meshes| == |old(meshes)| + 1 && meshes[..|old(meshes)|] == old(meshes)
      ensures sources == old(sources) + [e] == made
    {
      var parentId, parentMat := FindPlace(e, newSpaceMat);
      var vertices := Corrected(parentMat, e.matrix, e.vertices);
      AddMesh(Mesh(parentId, vertices.value), e);
    }

    /** From here on nodes are made for the element. */
    ghost method Begin(e: Element)
      requires Valid() && made == sources && e.product in file.objects
      modifies this`made
      ensures Valid() && Importing(e)
    {
      BeginKeepsMadeOf(file, rank, limit, nodes, made, e);
      made := made + [e];
    }

    /** Imports elements until one ends the process; `count` have been imported. */
    method ImportEach(elements: seq<Element>) returns (ended: bool, ghost count: nat)
      requires Valid() && made == sources == [] && forall e :: e in elements ==> e.product in file.objects
      modifies this
      ensures Valid() && made == sources
      ensures count <= |elements| && sources == WithFaces(elements[..count])
      ensures forall j :: 0 <= j < count ==> !EndsProcess(elements[j])
      ensures ended <==> count < |elements|
      ensures ended ==> EndsProcess(elements[count])
    {
      for i := 0 to |elements|
        invariant Valid() && made == sources == WithFaces(elements[..i])
        invariant forall j :: 0 <= j < i ==> !EndsProcess(elements[j])
      {
        ended := ImportNext(elements, i);
        if ended {
          count := i;
          return;
        }
      }
      ended, count := false, |elements|;
    }

    method ImportNext(elements: seq<Element>, i: nat) returns (ended: bool)
      requires Valid() && i < |elements| && elements[i].product in file.objects
      requires made == sources == WithFaces(elements[..i])
      modifies this
      ensures Valid() && made == sources
      ensures ended <==> EndsProcess(elements[i])
      ensures sources == WithFaces(elements[..if ended then i else i + 1])
    {
      FacesStep(elements, i);
      ended := Import(elements[i]);
    }

    /** The node that the meshes of an element go to, and its accumulated transform. */
    method FindPlace(e: Element, local: Matrix) returns (parentId: nat, parentMat: Matrix)
      requires Valid() && Importing(e) && IsTranslation(local) && Centres(limit, e, local)
      modifies this
      ensures Valid() && Grown() && parentId in nodes
      ensures parentMat == At(parentLocalToWorld, parentId) && IsTranslation(parentMat)
      ensures nodes[parentId].kind == MeshKind(file, e) && Reached(file, rank, nodes, e)
    {
      parentId := GetParentId(e, !e.isSpace, local);
      ghost var cache := parentLocalToWorld;
      parentMat := LookUpWorld(parentId);
      AllStandLater(file, nodes, cache, nodes, parentLocalToWorld, meshes, sources);
    }

    method AddMesh(mesh: Mesh, ghost e: Element)
      requires Valid() && Importing(e) && Reached(file, rank, nodes, e)
      requires mesh.parent in nodes && nodes[mesh.parent].kind == MeshKind(file, e)
      requires Seen(At(parentLocalToWorld, mesh.parent), mesh, e)
      modifies this`meshes, this`sources
      ensures Valid() && meshes == old(meshes) + [mesh] && sources == old(sources) + [e] == made
    {
      EndKeepsMadeOf(file, rank, limit, nodes, sources, e);
      OneMoreStands(file, nodes, parentLocalToWorld, meshes, sources, mesh, e);
      meshes := meshes + [mesh];
      sources := sources + [e];
    }
  }

  /** Spaces have no node of their own: their meshes hang where their nodes would. */
  function MeshKind(file: IfcFile, e: Element): (k: Kind)
    requires e.product in file.objects
  {
    if e.isSpace then ParentKind(file, e.product) else Leaf(e.product)
  }

  /** Imports the elements of a file, in any order, up to the first whose matrix does not pass the check, which
      ends the process. The tree has one node of each kind that an imported element needs and no others, each
      in its place and with the local matrix that the first such element gave it. Every vertex is in place,
      up to what the last row of its matrix is off, and exactly if that is nothing. */
  method ImportAll(file: IfcFile, ghost rank: int -> nat, limit: real, elements: seq<Element>)
    returns (ended: bool, nodes: map<nat, Node>, meshes: seq<Mesh>, table: map<int, NodesInfo>,
             metadata: map<int, nat>, metadataParents: map<nat, set<nat>>, ghost count: nat)
    requires ValidFile(file, rank)
    requires forall e :: e in elements ==> e.product in file.objects
    ensures count <= |elements| && (ended <==> count < |elements|) && (ended ==> EndsProcess(elements[count]))
    ensures forall j :: 0 <= j < count ==> !EndsProcess(elements[j])
    ensures IsTree(nodes) && Points(file, nodes, table) && Listed(nodes, table)
    ensures MetadataExact(nodes, metadata, metadataParents)
    ensures var made := WithFaces(elements[..count]);
            && MadeOf(file, rank, limit, nodes, made, made) && NoOthers(file, rank, made, nodes)
            && |meshes| == |made|
            && forall i :: 0 <= i < |meshes| ==>
                 && meshes[i].parent in nodes && nodes[meshes[i].parent].kind == MeshKind(file, made[i])
                 && Placed(World(Mul, nodes, meshes[i].parent), meshes[i], made[i])
  {
    var importer := new IfcSerialiser(file, rank, limit);
    ended, count := importer.ImportEach(elements);
    nodes, meshes, table := importer.nodes, importer.meshes, importer.sharedIds;
    metadata, metadataParents := importer.metadataUniqueIds, importer.metadataParents;
    ghost var made := importer.made;
    NothingElse(file, rank, limit, nodes, made);
    forall i | 0 <= i < |meshes|
      ensures && meshes[i].parent in nodes && nodes[meshes[i].parent].kind == MeshKind(file, made[i])
              && Placed(World(Mul, nodes, meshes[i].parent), meshes[i], made[i])
    {
      assert Stands(file, nodes, importer.parentLocalToWorld, meshes[i], made[i]);
      MeshIsPlaced(Mul, nodes, importer.parentLocalToWorld, meshes[i], made[i]);
    }
  }

  /** The tree has nodes of exactly the kinds that some element needs. */
  ghost predicate NoOthers(file: IfcFile, rank: int -> nat, made: seq<Element>, nodes: map<nat, Node>)
    requires ValidFile(file, rank) && KnownElements(file, made)
  {
    forall kind :: kind in KindsOf(nodes) <==>
                   kind == RootNode || exists k :: 0 <= k < |made| && Makes(file, rank, made[k], kind)
  }

  /** A mesh is in place up to what the last row of its matrix is off, and exactly if that is nothing. */
  ghost predicate Placed(m: Matrix, mesh: Mesh, source: Element) {
    Seen(m, mesh, source) && (Affine(source.matrix) ==> InPlace(m, mesh, source))
  }

  lemma {:induction false} MeshIsPlaced(
    mul: MatrixProduct, nodes: map<nat, Node>, cache: map<nat, Matrix>, mesh: Mesh, source: Element)
    requires IsTree(nodes) && CacheExact(mul, nodes, cache) && mesh.parent in nodes
    requires Seen(At(cache, mesh.parent), mesh, source)
    ensures Placed(World(mul, nodes, mesh.parent), mesh, source)
  {
    CacheIsWorld(mul, nodes, cache, mesh.parent);
    CachedIsInvertible(mul, nodes, cache, mesh.parent);
    IsPlaced(At(cache, mesh.parent), mesh, source);
  }

  lemma IsPlaced(m: Matrix, mesh: Mesh, source: Element)
    requires IsTranslation(m) && Seen(m, mesh, source)
    ensures Placed(m, mesh, source)
  {
    if Affine(source.matrix) {
      AffineIsInPlace(m, mesh, source);
    }
  }

  lemma {:induction false} NothingElse(
    file: IfcFile, rank: int -> nat, limit: real, nodes: map<nat, Node>, made: seq<Element>)
    requires MadeOf(file, rank, limit, nodes, made, made) && IsTree(nodes)
    ensures NoOthers(file, rank, made, nodes)
  {
    forall kind
      ensures kind in KindsOf(nodes) <==>
              kind == RootNode || exists k :: 0 <= k < |made| && Makes(file, rank, made[k], kind)
    {
      if kind in KindsOf(nodes) && kind != RootNode {
        var id :| id in nodes && nodes[id].kind == kind;
        assert Fits(file, rank, limit, made, nodes, nodes[id]);
        var k: nat :| Origin(file, rank, limit, made, kind, nodes[id].local, k);
      }
      if kind == RootNode {
        assert nodes[ROOT].kind == kind;
      }
      if k :| 0 <= k < |made| && Makes(file, rank, made[k], kind) {
        assert Reached(file, rank, nodes, made[k]);
      }
    }
  }

  /** The local matrix of every node, by the first element that needs it. */
  lemma {:induction false} LocalIsExact(
    file: IfcFile, rank: int -> nat, limit: real, nodes: map<nat, Node>, made: seq<Element>, id: nat, k: nat)
    requires MadeOf(file, rank, limit, nodes, made, made) && id in nodes && id != ROOT
    requires FirstMakes(file, rank, made, k, nodes[id].kind)
    ensures var kind := nodes[id].kind;
            if kind.Leaf? || (Enters(file, rank, made[k], kind) && !LeafBefore(made, k, kind))
            then Centres(limit, made[k], nodes[id].local)
            else nodes[id].local == IDENTITY
  {
    assert Fits(file, rank, limit, made, nodes, nodes[id]);
    var j: nat :| Origin(file, rank, limit, made, nodes[id].kind, nodes[id].local, j);
    assert j == k;
  }

  const STOREY_WITH_SPACE := IfcFile(map[1 := IfcObject(None, false, 0), 2 := IfcObject(Some(1), false, 0)], 2)

  /** The branch of a storey is not the identity when a space is the first that needs it. */
  lemma SpaceMovesBranchExample(rank: int -> nat, limit: real, nodes: map<nat, Node>, id: nat, e: Element)
    requires limit >= 2.0 && id in nodes && id != ROOT && nodes[id].kind == Branch(1)
    requires e.product == 2 && e.isSpace && WorldVertices(e) == [Vec3(2.0, 0.0, 0.0)]
    requires MadeOf(STOREY_WITH_SPACE, rank, limit, nodes, [e], [e])
    ensures nodes[id].local == Translate(Vec3(2.0, 0.0, 0.0)) != IDENTITY
  {
    SpaceEnters(rank, e);
    LocalIsExact(STOREY_WITH_SPACE, rank, limit, nodes, [e], id, 0);
    PointIsCentre(limit, e, Vec3(2.0, 0.0, 0.0), nodes[id].local);
  }

  lemma SpaceEnters(rank: int -> nat, e: Element)
    requires ValidFile(STOREY_WITH_SPACE, rank) && e.product == 2 && e.isSpace
    ensures FirstMakes(STOREY_WITH_SPACE, rank, [e], 0, Branch(1)) && Enters(STOREY_WITH_SPACE, rank, e, Branch(1))
  {
    assert Above(STOREY_WITH_SPACE, rank, 1) == {};
  }

  lemma PointIsCentre(limit: real, e: Element, p: Vec3, m: Matrix)
    requires WorldVertices(e) == [p] && Finite(p, limit) && Centres(limit, e, m)
    ensures m == Translate(p)
  {
    var b: Box :| IsHullOf(limit, WorldVertices(e), b) && m == Translate(b.Center());
    assert p in [p] && b.Contains(p) && Box(p, p).Contains(p);
    assert b.Within(Box(p, p));
    assert b.Center() == p;
  }

  lemma {:induction false} FacesStep(es: seq<Element>, i: nat)
    requires i < |es|
    ensures WithFaces(es[..i + 1]) == WithFaces(es[..i]) + if es[i].hasFaces then [es[i]] else []
  {
    assert es[..i + 1][..i] == es[..i];
  }

  /** The elements that have faces, in import order. */
  ghost function WithFaces(es: seq<Element>): (r: seq<Element>) {
    if es == [] then []
    else
      var last := es[|es| - 1];
      WithFaces(es[..|es| - 1]) + if last.hasFaces then [last] else []
  }
}
