/**
 * The shared tree helpers: deep copy, status reset, the two recursive BST
 * inserters and the static builder every traversal starts from.
 *
 * Insertion sends a value strictly smaller than a node's to the left and
 * everything else, ties included, to the right. The path that rule follows
 * is `SearchPath`; each inserter is shown to hang one new leaf at the end
 * of that path and to change nothing else.
 */
module TreeHelpers {
  import opened Types
  import opened Definitions
  import opened TreePaths

  const TreeRootY: real := 10.0
  const TreeLayerHeight: real := 15.0

  /** `cloneTree`: a copy with the same shape, ids, values, coordinates and colours. */
  function CloneTree(t: Tree): (c: Tree)
    ensures c == t
  {
    match t
    case Nil => Nil
    case Node(id, value, x, y, left, right, status) =>
      Node(id, value, x, y, CloneTree(left), CloneTree(right), status)
  }

  /** `resetTreeStatus`: every node that is not SORTED goes back to DEFAULT. */
  function ResetTreeStatus(t: Tree): (r: Tree)
    ensures Strip(r) == Strip(t)
  {
    match t
    case Nil => Nil
    case Node(id, value, x, y, left, right, status) =>
      Node(id, value, x, y, ResetTreeStatus(left), ResetTreeStatus(right),
        if status != Sorted then Default else Sorted)
  }

  function ResetItem(i: Item): Item
  {
    i.(status := if i.status == Sorted then Sorted else Default)
  }

  function ResetItems(xs: seq<Item>): (r: seq<Item>)
    ensures |r| == |xs|
  {
    seq(|xs|, i requires 0 <= i < |xs| => ResetItem(xs[i]))
  }

  lemma ResetConcat3(a: seq<Item>, b: seq<Item>, c: seq<Item>)
    ensures ResetItems(a + b + c) == ResetItems(a) + ResetItems(b) + ResetItems(c)
  {
  }

  /** Listed in any depth-first order, the reset keeps SORTED items and clears the rest. */
  lemma {:induction false} ResetListing(o: Order, t: Tree)
    ensures Flatten(o, ResetTreeStatus(t)) == ResetItems(Flatten(o, t))
  {
    match t
    case Nil =>
    case Node(_, _, _, _, left, right, _) =>
      ResetListing(o, left);
      ResetListing(o, right);
      var t' := ResetTreeStatus(t);
      var n, l, r := [ItemOf(t)], Flatten(o, left), Flatten(o, right);
      assert [ItemOf(t')] == ResetItems(n);
      assert Flatten(o, t'.left) == ResetItems(l) && Flatten(o, t'.right) == ResetItems(r);
      match o
      case PreOrder => ResetConcat3(n, l, r);
      case InOrder => ResetConcat3(l, n, r);
      case PostOrder => ResetConcat3(l, r, n);
  }

  lemma {:induction false} ResetIdempotent(t: Tree)
    ensures ResetTreeStatus(ResetTreeStatus(t)) == ResetTreeStatus(t)
  {
    match t
    case Nil =>
    case Node(_, _, _, _, left, right, _) =>
      ResetIdempotent(left);
      ResetIdempotent(right);
  }

  /** On a tree without SORTED nodes the reset forgets every colour. */
  lemma {:induction false} ResetUnsorted(t: Tree)
    requires NoSorted(t)
    ensures ResetTreeStatus(t) == Strip(t)
  {
    match t
    case Nil =>
    case Node(_, _, _, _, left, right, _) =>
      ResetUnsorted(left);
      ResetUnsorted(right);
  }

  ghost predicate NoSorted(t: Tree)
  {
    match t
    case Nil => true
    case Node(_, _, _, _, left, right, status) => status != Sorted && NoSorted(left) && NoSorted(right)
  }

  // ----- contents -----

  function ItemValues(xs: seq<Item>): (r: seq<int>)
    ensures |r| == |xs|
  {
    seq(|xs|, i requires 0 <= i < |xs| => xs[i].value)
  }

  lemma ItemValuesConcat(a: seq<Item>, b: seq<Item>, c: seq<Item>)
    ensures ItemValues(a + b + c) == ItemValues(a) + ItemValues(b) + ItemValues(c)
  {
  }

  /** The values of t in inorder. */
  function InorderValues(t: Tree): (r: seq<int>)
    ensures |r| == Size(t)
  {
    ItemValues(Flatten(InOrder, t))
  }

  function ItemIds(xs: seq<Item>): (r: seq<nat>)
    ensures |r| == |xs|
  {
    seq(|xs|, i requires 0 <= i < |xs| => xs[i].id)
  }

  lemma ItemIdsConcat(a: seq<Item>, b: seq<Item>, c: seq<Item>)
    ensures ItemIds(a + b + c) == ItemIds(a) + ItemIds(b) + ItemIds(c)
  {
  }

  /** The values held in t, with multiplicity. */
  function ValueBag(t: Tree): multiset<int>
  {
    multiset(InorderValues(t))
  }

  /** The ids held in t, with multiplicity. */
  function IdBag(t: Tree): multiset<nat>
  {
    multiset(ItemIds(Flatten(InOrder, t)))
  }

  /** Every value in t is below b. */
  ghost predicate Below(t: Tree, b: int)
  {
    match t
    case Nil => true
    case Node(_, value, _, _, left, right, _) => value < b && Below(left, b) && Below(right, b)
  }

  /** Every value in t is at least b. */
  ghost predicate AtLeast(t: Tree, b: int)
  {
    match t
    case Nil => true
    case Node(_, value, _, _, left, right, _) => b <= value && AtLeast(left, b) && AtLeast(right, b)
  }

  /** The BST order: left subtree values < node value <= right subtree values. */
  ghost predicate Bst(t: Tree)
  {
    match t
    case Nil => true
    case Node(_, value, _, _, left, right, _) =>
      Below(left, value) && AtLeast(right, value) && Bst(left) && Bst(right)
  }

  /** A single node holding val. */
  ghost predicate LeafOf(s: Tree, val: int)
  {
    s.Node? && s.value == val && s.left == Nil && s.right == Nil
  }

  /** Hanging s into an empty slot adds exactly s's values and ids. */
  lemma FillContents(t: Tree, p: Path, s: Tree)
    requires ValidPath(t, p) && At(t, p) == Nil
    ensures ValueBag(ReplaceAt(t, p, s)) == ValueBag(t) + ValueBag(s)
    ensures IdBag(ReplaceAt(t, p, s)) == IdBag(t) + IdBag(s)
  {
    FillFlatten(t, p, s);
    FillValues(Before(InOrder, t, p), Flatten(InOrder, s), After(InOrder, t, p));
    FillIds(Before(InOrder, t, p), Flatten(InOrder, s), After(InOrder, t, p));
  }

  /** The values of b + m + a are those of b + a and those of m. */
  lemma FillValues(b: seq<Item>, m: seq<Item>, a: seq<Item>)
    ensures multiset(ItemValues(b + m + a)) == multiset(ItemValues(b + [] + a)) + multiset(ItemValues(m))
  {
    ItemValuesConcat(b, m, a);
    ItemValuesConcat(b, [], a);
    assert ItemValues(b + [] + a) == ItemValues(b) + ItemValues(a);
  }

  /** The ids of b + m + a are those of b + a and those of m. */
  lemma FillIds(b: seq<Item>, m: seq<Item>, a: seq<Item>)
    ensures multiset(ItemIds(b + m + a)) == multiset(ItemIds(b + [] + a)) + multiset(ItemIds(m))
  {
    ItemIdsConcat(b, m, a);
    ItemIdsConcat(b, [], a);
    assert ItemIds(b + [] + a) == ItemIds(b) + ItemIds(a);
  }

  /** The inorder listing with s hung into the empty slot at p: s's listing between what comes before and after p. */
  lemma FillFlatten(t: Tree, p: Path, s: Tree)
    requires ValidPath(t, p) && At(t, p) == Nil
    ensures Flatten(InOrder, ReplaceAt(t, p, s)) == Before(InOrder, t, p) + Flatten(InOrder, s) + After(InOrder, t, p)
    ensures Flatten(InOrder, t) == Before(InOrder, t, p) + [] + After(InOrder, t, p)
  {
    FlattenReplace(InOrder, t, p, s);
    FlattenReplace(InOrder, t, p, Nil);
    ReplaceSame(t, p);
  }

  /** Growing a leaf with value val keeps an upper bound above val. */
  lemma {:induction false} FillBelow(t: Tree, val: int, s: Tree, b: int)
    requires Below(t, b) && LeafOf(s, val) && val < b
    ensures Below(ReplaceAt(t, SearchPath(t, val), s), b)
  {
    match t
    case Nil =>
    case Node(_, value, _, _, left, right, _) =>
      if val < value {
        FillBelow(left, val, s, b);
        assert ReplaceAt(t, SearchPath(t, val), s) == t.(left := ReplaceAt(left, SearchPath(left, val), s));
      } else {
        FillBelow(right, val, s, b);
        assert ReplaceAt(t, SearchPath(t, val), s) == t.(right := ReplaceAt(right, SearchPath(right, val), s));
      }
  }

  /** Growing a leaf with value val keeps a lower bound at or below val. */
  lemma {:induction false} FillAtLeast(t: Tree, val: int, s: Tree, b: int)
    requires AtLeast(t, b) && LeafOf(s, val) && b <= val
    ensures AtLeast(ReplaceAt(t, SearchPath(t, val), s), b)
  {
    match t
    case Nil =>
    case Node(_, value, _, _, left, right, _) =>
      if val < value {
        FillAtLeast(left, val, s, b);
        assert ReplaceAt(t, SearchPath(t, val), s) == t.(left := ReplaceAt(left, SearchPath(left, val), s));
      } else {
        FillAtLeast(right, val, s, b);
        assert ReplaceAt(t, SearchPath(t, val), s) == t.(right := ReplaceAt(right, SearchPath(right, val), s));
      }
  }

  /** A leaf with value val hung at the end of val's search path keeps the BST order. */
  lemma {:induction false} FillKeepsBst(t: Tree, val: int, s: Tree)
    requires Bst(t) && LeafOf(s, val)
    ensures Bst(ReplaceAt(t, SearchPath(t, val), s))
  {
    match t
    case Nil =>
    case Node(_, value, _, _, left, right, _) =>
      if val < value {
        FillKeepsBst(left, val, s);
        FillBelow(left, val, s, value);
        assert ReplaceAt(t, SearchPath(t, val), s) == t.(left := ReplaceAt(left, SearchPath(left, val), s));
      } else {
        FillKeepsBst(right, val, s);
        FillAtLeast(right, val, s, value);
        assert ReplaceAt(t, SearchPath(t, val), s) == t.(right := ReplaceAt(right, SearchPath(right, val), s));
      }
  }


  /** The path an insertion of val follows: left when val < node value, right otherwise. */
  function SearchPath(t: Tree, val: int): (q: Path)
    ensures ValidPath(t, q) && At(t, q) == Nil
  {
    match t
    case Nil => []
    case Node(_, value, _, _, left, right, _) =>
      if val < value then [L] + SearchPath(left, val) else [R] + SearchPath(right, val)
  }

  /** A fresh DEFAULT leaf with the given id and value. */
  ghost predicate NewLeaf(s: Tree, id: nat, val: int)
  {
    s.Node? && s.id == id && s.value == val && s.left == Nil && s.right == Nil && s.status == Default
  }

  // ----- layout -----

  /** Every node at depth d sits at y0 + d * TREE_LAYER_HEIGHT. */
  ghost predicate Layered(t: Tree, y0: real)
  {
    match t
    case Nil => true
    case Node(_, _, _, y, left, right, _) =>
      y == y0 && Layered(left, y0 + TreeLayerHeight) && Layered(right, y0 + TreeLayerHeight)
  }

  /** Children sit dx to the left and right of their parent, grandchildren dx/2, and so on. */
  ghost predicate Spread(t: Tree, dx: real)
  {
    match t
    case Nil => true
    case Node(_, _, x, _, left, right, _) =>
      && (left.Node? ==> left.x == x - dx)
      && (right.Node? ==> right.x == x + dx)
      && Spread(left, dx / 2.0) && Spread(right, dx / 2.0)
  }

  // ----- insertIntoBST -----

  /**
   * `insertIntoBST`: the new node hangs at the end of the search path;
   * a child is placed rangeX/2 beside its parent and one layer lower.
   */
  function InsertIntoBST(root: Tree, val: int, id: nat, x: real, y: real, rangeX: real): (r: Tree)
    ensures r.Node? && Size(r) == Size(root) + 1
    ensures root.Node? ==> ItemOf(r) == ItemOf(root)
    ensures root.Nil? ==> r.x == x && r.y == y
  {
    match root
    case Nil => Node(id, val, x, y, Nil, Nil, Default)
    case Node(_, value, rx, ry, left, right, _) =>
      if val < value then
        root.(left := InsertIntoBST(left, val, id, rx - rangeX / 2.0, ry + TreeLayerHeight, rangeX / 2.0))
      else
        root.(right := InsertIntoBST(right, val, id, rx + rangeX / 2.0, ry + TreeLayerHeight, rangeX / 2.0))
  }

  /** insertIntoBST hangs one new leaf at the end of the search path and changes nothing else. */
  lemma {:induction false} InsertPlacesLeaf(root: Tree, val: int, id: nat, x: real, y: real, rangeX: real)
    ensures var r, q := InsertIntoBST(root, val, id, x, y, rangeX), SearchPath(root, val);
      NewLeaf(At(r, q), id, val) && r == ReplaceAt(root, q, At(r, q))
  {
    match root
    case Nil =>
    case Node(_, value, rx, ry, left, right, _) =>
      var r := InsertIntoBST(root, val, id, x, y, rangeX);
      if val < value {
        var c := InsertIntoBST(left, val, id, rx - rangeX / 2.0, ry + TreeLayerHeight, rangeX / 2.0);
        var q := SearchPath(left, val);
        InsertPlacesLeaf(left, val, id, rx - rangeX / 2.0, ry + TreeLayerHeight, rangeX / 2.0);
        assert r == root.(left := c);
        assert SearchPath(root, val) == [L] + q;
        assert At(r, [L] + q) == At(c, q);
        assert ReplaceAt(root, [L] + q, At(c, q)) == root.(left := ReplaceAt(left, q, At(c, q)));
      } else {
        var c := InsertIntoBST(right, val, id, rx + rangeX / 2.0, ry + TreeLayerHeight, rangeX / 2.0);
        var q := SearchPath(right, val);
        InsertPlacesLeaf(right, val, id, rx + rangeX / 2.0, ry + TreeLayerHeight, rangeX / 2.0);
        assert r == root.(right := c);
        assert SearchPath(root, val) == [R] + q;
        assert At(r, [R] + q) == At(c, q);
        assert ReplaceAt(root, [R] + q, At(c, q)) == root.(right := ReplaceAt(right, q, At(c, q)));
      }
  }

  /** insertIntoBST adds val to the values and id to the ids. */
  lemma InsertContents(root: Tree, val: int, id: nat, x: real, y: real, rangeX: real)
    ensures ValueBag(InsertIntoBST(root, val, id, x, y, rangeX)) == ValueBag(root) + multiset{val}
    ensures IdBag(InsertIntoBST(root, val, id, x, y, rangeX)) == IdBag(root) + multiset{id}
  {
    var r, q := InsertIntoBST(root, val, id, x, y, rangeX), SearchPath(root, val);
    InsertPlacesLeaf(root, val, id, x, y, rangeX);
    FillContents(root, q, At(r, q));
    LeafBags(At(r, q));
  }

  /** The bags of a single node. */
  lemma LeafBags(s: Tree)
    requires s.Node? && s.left == Nil && s.right == Nil
    ensures ValueBag(s) == multiset{s.value} && IdBag(s) == multiset{s.id}
  {
    assert Flatten(InOrder, s) == [ItemOf(s)];
  }

  /** insertIntoBST keeps the BST order. */
  lemma InsertKeepsBst(root: Tree, val: int, id: nat, x: real, y: real, rangeX: real)
    requires Bst(root)
    ensures Bst(InsertIntoBST(root, val, id, x, y, rangeX))
  {
    var r, q := InsertIntoBST(root, val, id, x, y, rangeX), SearchPath(root, val);
    InsertPlacesLeaf(root, val, id, x, y, rangeX);
    FillKeepsBst(root, val, At(r, q));
  }

  lemma LayoutNode(t: Tree, y0: real, dx: real)
    requires t.Node? && t.y == y0
    requires Layered(t.left, y0 + TreeLayerHeight) && Layered(t.right, y0 + TreeLayerHeight)
    requires t.left.Node? ==> t.left.x == t.x - dx
    requires t.right.Node? ==> t.right.x == t.x + dx
    requires Spread(t.left, dx / 2.0) && Spread(t.right, dx / 2.0)
    ensures Layered(t, y0) && Spread(t, dx)
  {
  }

  lemma {:induction false} InsertKeepsLayout(root: Tree, val: int, id: nat, x: real, y: real, rangeX: real, y0: real)
    requires Layered(root, y0) && (root.Nil? ==> y == y0) && Spread(root, rangeX / 2.0)
    ensures Layered(InsertIntoBST(root, val, id, x, y, rangeX), y0)
    ensures Spread(InsertIntoBST(root, val, id, x, y, rangeX), rangeX / 2.0)
  {
    match root
    case Nil =>
      LayoutNode(InsertIntoBST(root, val, id, x, y, rangeX), y0, rangeX / 2.0);
    case Node(_, value, rx, ry, left, right, _) =>
      var r := InsertIntoBST(root, val, id, x, y, rangeX);
      var h := rangeX / 2.0;
      if val < value {
        var c := InsertIntoBST(left, val, id, rx - h, ry + TreeLayerHeight, h);
        InsertKeepsLayout(left, val, id, rx - h, ry + TreeLayerHeight, h, y0 + TreeLayerHeight);
        assert r == root.(left := c);
        assert Layered(c, y0 + TreeLayerHeight) && Spread(c, h / 2.0);
        assert c.x == rx - h;
        LayoutNode(r, y0, h);
      } else {
        var c := InsertIntoBST(right, val, id, rx + h, ry + TreeLayerHeight, h);
        InsertKeepsLayout(right, val, id, rx + h, ry + TreeLayerHeight, h, y0 + TreeLayerHeight);
        assert r == root.(right := c);
        assert Layered(c, y0 + TreeLayerHeight) && Spread(c, h / 2.0);
        assert c.x == rx + h;
        LayoutNode(r, y0, h);
      }
  }

  // ----- buildBSTFromArray -----

  /**
   * The inserter local to `buildBSTFromArray`: same rule, but it carries the
   * slot's own x and y and an offset dx that halves per level.
   */
  function BuildInsert(node: Tree, v: int, idx: nat, x: real, y: real, dx: real): (r: Tree)
    ensures r.Node? && Size(r) == Size(node) + 1
    ensures node.Node? ==> ItemOf(r) == ItemOf(node)
    ensures node.Nil? ==> r.x == x && r.y == y
  {
    match node
    case Nil => Node(idx, v, x, y, Nil, Nil, Default)
    case Node(_, value, _, _, left, right, _) =>
      if v < value then
        node.(left := BuildInsert(left, v, idx, x - dx, y + TreeLayerHeight, dx / 2.0))
      else
        node.(right := BuildInsert(right, v, idx, x + dx, y + TreeLayerHeight, dx / 2.0))
  }

  lemma {:induction false} BuildInsertPlacesLeaf(node: Tree, v: int, idx: nat, x: real, y: real, dx: real)
    ensures var r, q := BuildInsert(node, v, idx, x, y, dx), SearchPath(node, v);
      NewLeaf(At(r, q), idx, v) && r == ReplaceAt(node, q, At(r, q))
  {
    match node
    case Nil =>
    case Node(_, value, _, _, left, right, _) =>
      var r := BuildInsert(node, v, idx, x, y, dx);
      if v < value {
        var c := BuildInsert(left, v, idx, x - dx, y + TreeLayerHeight, dx / 2.0);
        var q := SearchPath(left, v);
        BuildInsertPlacesLeaf(left, v, idx, x - dx, y + TreeLayerHeight, dx / 2.0);
        assert r == node.(left := c);
        assert SearchPath(node, v) == [L] + q;
        assert At(r, [L] + q) == At(c, q);
        assert ReplaceAt(node, [L] + q, At(c, q)) == node.(left := ReplaceAt(left, q, At(c, q)));
      } else {
        var c := BuildInsert(right, v, idx, x + dx, y + TreeLayerHeight, dx / 2.0);
        var q := SearchPath(right, v);
        BuildInsertPlacesLeaf(right, v, idx, x + dx, y + TreeLayerHeight, dx / 2.0);
        assert r == node.(right := c);
        assert SearchPath(node, v) == [R] + q;
        assert At(r, [R] + q) == At(c, q);
        assert ReplaceAt(node, [R] + q, At(c, q)) == node.(right := ReplaceAt(right, q, At(c, q)));
      }
  }

  lemma BuildInsertContents(node: Tree, v: int, idx: nat, x: real, y: real, dx: real)
    ensures ValueBag(BuildInsert(node, v, idx, x, y, dx)) == ValueBag(node) + multiset{v}
    ensures IdBag(BuildInsert(node, v, idx, x, y, dx)) == IdBag(node) + multiset{idx}
  {
    var r, q := BuildInsert(node, v, idx, x, y, dx), SearchPath(node, v);
    BuildInsertPlacesLeaf(node, v, idx, x, y, dx);
    FillContents(node, q, At(r, q));
    LeafBags(At(r, q));
  }

  lemma BuildInsertKeepsBst(node: Tree, v: int, idx: nat, x: real, y: real, dx: real)
    requires Bst(node)
    ensures Bst(BuildInsert(node, v, idx, x, y, dx))
  {
    var r, q := BuildInsert(node, v, idx, x, y, dx), SearchPath(node, v);
    BuildInsertPlacesLeaf(node, v, idx, x, y, dx);
    FillKeepsBst(node, v, At(r, q));
  }

  /** When the slot coordinates passed down agree with the nodes met, the layout is kept. */
  lemma {:induction false} BuildInsertKeepsLayout(node: Tree, v: int, idx: nat, x: real, y: real, dx: real)
    requires node.Node? ==> node.x == x
    requires Layered(node, y) && Spread(node, dx)
    ensures Layered(BuildInsert(node, v, idx, x, y, dx), y)
    ensures Spread(BuildInsert(node, v, idx, x, y, dx), dx)
  {
    match node
    case Nil =>
      LayoutNode(BuildInsert(node, v, idx, x, y, dx), y, dx);
    case Node(_, value, _, _, left, right, _) =>
      var r := BuildInsert(node, v, idx, x, y, dx);
      if v < value {
        var c := BuildInsert(left, v, idx, x - dx, y + TreeLayerHeight, dx / 2.0);
        BuildInsertKeepsLayout(left, v, idx, x - dx, y + TreeLayerHeight, dx / 2.0);
        assert r == node.(left := c);
        assert Layered(c, y + TreeLayerHeight) && Spread(c, dx / 2.0);
        assert c.x == x - dx;
        LayoutNode(r, y, dx);
      } else {
        var c := BuildInsert(right, v, idx, x + dx, y + TreeLayerHeight, dx / 2.0);
        BuildInsertKeepsLayout(right, v, idx, x + dx, y + TreeLayerHeight, dx / 2.0);
        assert r == node.(right := c);
        assert Layered(c, y + TreeLayerHeight) && Spread(c, dx / 2.0);
        assert c.x == x + dx;
        LayoutNode(r, y, dx);
      }
  }

  lemma {:induction false} BuildInsertUncoloured(node: Tree, v: int, idx: nat, x: real, y: real, dx: real)
    requires Strip(node) == node
    ensures Strip(BuildInsert(node, v, idx, x, y, dx)) == BuildInsert(node, v, idx, x, y, dx)
  {
    match node
    case Nil =>
    case Node(_, value, _, _, left, right, _) =>
      var r := BuildInsert(node, v, idx, x, y, dx);
      if v < value {
        var c := BuildInsert(left, v, idx, x - dx, y + TreeLayerHeight, dx / 2.0);
        BuildInsertUncoloured(left, v, idx, x - dx, y + TreeLayerHeight, dx / 2.0);
        assert r == node.(left := c);
        assert Strip(left) == left && Strip(right) == right && node.status == Default;
        assert Strip(r) == r.(left := Strip(c), right := Strip(right), status := Default);
      } else {
        var c := BuildInsert(right, v, idx, x + dx, y + TreeLayerHeight, dx / 2.0);
        BuildInsertUncoloured(right, v, idx, x + dx, y + TreeLayerHeight, dx / 2.0);
        assert r == node.(right := c);
        assert Strip(left) == left && Strip(right) == right && node.status == Default;
        assert Strip(r) == r.(left := Strip(left), right := Strip(c), status := Default);
      }
  }

  /** The tree `buildBSTFromArray(values)` returns: values inserted in order, value i as `node-i`. */
  function Built(values: seq<int>): (r: Tree)
    ensures Size(r) == |values|
    ensures |values| == 0 <==> r.Nil?
    decreases |values|
  {
    if |values| == 0 then Nil
    else
      var n := |values| - 1;
      BuildInsert(Built(values[..n]), values[n], n, 50.0, TreeRootY, 25.0)
  }

  /** One node per input value; value i carries id `node-i`. */
  lemma {:induction false} BuiltContents(values: seq<int>)
    ensures ValueBag(Built(values)) == multiset(values)
    ensures IdBag(Built(values)) == multiset(Range(|values|))
    decreases |values|
  {
    if |values| > 0 {
      var n := |values| - 1;
      var prev := Built(values[..n]);
      assert Built(values) == BuildInsert(prev, values[n], n, 50.0, TreeRootY, 25.0);
      BuiltContents(values[..n]);
      BuildInsertContents(prev, values[n], n, 50.0, TreeRootY, 25.0);
      SnocBag(values);
      SnocBag(Range(n + 1));
      assert Range(n + 1)[..n] == Range(n);
    }
  }

  lemma SnocBag<T>(s: seq<T>)
    requires |s| > 0
    ensures multiset(s) == multiset(s[..|s| - 1]) + multiset{s[|s| - 1]}
  {
    assert s == s[..|s| - 1] + [s[|s| - 1]];
  }

  /** `buildBSTFromArray`: the forEach loop inserting each value from the root. */
  method BuildBSTFromArray(values: seq<int>) returns (root: Tree)
    ensures root == Built(values)
  {
    root := Nil;
    for i := 0 to |values|
      invariant root == Built(values[..i])
    {
      assert values[..i + 1][..i] == values[..i];
      root := BuildInsert(root, values[i], i, 50.0, TreeRootY, 25.0);
    }
    assert values[..|values|] == values;
  }

  lemma {:induction false} BuiltBst(values: seq<int>)
    ensures Bst(Built(values))
    decreases |values|
  {
    if |values| > 0 {
      var n := |values| - 1;
      BuiltBst(values[..n]);
      BuildInsertKeepsBst(Built(values[..n]), values[n], n, 50.0, TreeRootY, 25.0);
    }
  }

  /** The root sits at (50, TREE_ROOT_Y); depth d is at y TREE_ROOT_Y + 15d; offsets halve from 25. */
  lemma {:induction false} BuiltLayout(values: seq<int>)
    ensures |values| > 0 ==> Built(values).x == 50.0 && Built(values).y == TreeRootY
    ensures Layered(Built(values), TreeRootY) && Spread(Built(values), 25.0)
    decreases |values|
  {
    if |values| > 0 {
      var n := |values| - 1;
      BuiltLayout(values[..n]);
      BuildInsertKeepsLayout(Built(values[..n]), values[n], n, 50.0, TreeRootY, 25.0);
    }
  }

  /** Every node of the built tree is DEFAULT. */
  lemma {:induction false} BuiltUncoloured(values: seq<int>)
    ensures Strip(Built(values)) == Built(values)
    decreases |values|
  {
    if |values| > 0 {
      var n := |values| - 1;
      BuiltUncoloured(values[..n]);
      BuildInsertUncoloured(Built(values[..n]), values[n], n, 50.0, TreeRootY, 25.0);
    }
  }

  // ----- the BST order seen in inorder -----

  /** Every value listed in inorder is below b. */
  lemma {:induction false} BelowInorder(t: Tree, b: int)
    requires Below(t, b)
    ensures forall v | v in InorderValues(t) :: v < b
  {
    match t
    case Nil =>
    case Node(_, value, _, _, left, right, _) =>
      BelowInorder(left, b);
      BelowInorder(right, b);
      ItemValuesConcat(Flatten(InOrder, left), [ItemOf(t)], Flatten(InOrder, right));
      assert InorderValues(t) == InorderValues(left) + [value] + InorderValues(right);
  }

  /** Every value listed in inorder is at least b. */
  lemma {:induction false} AtLeastInorder(t: Tree, b: int)
    requires AtLeast(t, b)
    ensures forall v | v in InorderValues(t) :: b <= v
  {
    match t
    case Nil =>
    case Node(_, value, _, _, left, right, _) =>
      AtLeastInorder(left, b);
      AtLeastInorder(right, b);
      ItemValuesConcat(Flatten(InOrder, left), [ItemOf(t)], Flatten(InOrder, right));
      assert InorderValues(t) == InorderValues(left) + [value] + InorderValues(right);
  }

  /** A BST lists its values in non-decreasing order when read in inorder. */
  lemma {:induction false} BstInorderSorted(t: Tree)
    requires Bst(t)
    ensures NonDecreasing(InorderValues(t))
  {
    match t
    case Nil =>
    case Node(_, value, _, _, left, right, _) =>
      BstInorderSorted(left);
      BstInorderSorted(right);
      BelowInorder(left, value);
      AtLeastInorder(right, value);
      ItemValuesConcat(Flatten(InOrder, left), [ItemOf(t)], Flatten(InOrder, right));
      assert InorderValues(t) == InorderValues(left) + [value] + InorderValues(right);
      SortedJoin(InorderValues(left), value, InorderValues(right));
  }

  lemma SortedJoin(l: seq<int>, v: int, r: seq<int>)
    requires NonDecreasing(l) && NonDecreasing(r)
    requires forall u | u in l :: u < v
    requires forall u | u in r :: v <= u
    ensures NonDecreasing(l + [v] + r)
  {
    var s := l + [v] + r;
    forall p, q | 0 <= p < q < |s| ensures s[p] <= s[q] {
      if q < |l| {
      } else if p < |l| {
        assert s[p] in l;
        if q > |l| { assert s[q] in r; }
      } else if p == |l| {
        assert s[q] in r;
      }
    }
  }

  /** The built tree lists the input values, sorted, in inorder. */
  lemma BuiltInorderSorted(values: seq<int>)
    ensures NonDecreasing(InorderValues(Built(values)))
    ensures multiset(InorderValues(Built(values))) == multiset(values)
  {
    BuiltBst(values);
    BuiltContents(values);
    BstInorderSorted(Built(values));
  }
}
