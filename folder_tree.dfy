/**
 * The folder tree view: root items at level 0 with path `[name]`, each
 * child one level deeper with its name appended to the path, an expansion
 * flag per item that only folders with children can flip, and the
 * click callback that reports the item and its path.
 */
module FolderTree {
  import opened Wrappers

  datatype NodeType = Folder | Item

  /** A tree entry; `children` is optional in the data. */
  datatype TreeNode = TreeNode(name: string, kind: NodeType, children: Option<seq<TreeNode>>)

  /** The children as a list, empty when the field is absent. */
  function Kids(n: TreeNode): (r: seq<TreeNode>)
    ensures n.children.Some? ==> r == n.children.value
    ensures n.children.None? ==> r == []
  {
    match n.children
    case Some(cs) => cs
    case None => []
  }

  /** `node.children && node.children.length > 0`. */
  predicate HasChildren(n: TreeNode) {
    n.children.Some? && |n.children.value| > 0
  }

  /** Only a folder with at least one child can be expanded or collapsed. */
  predicate Expandable(n: TreeNode) {
    n.kind == Folder && HasChildren(n)
  }

  /** The props one `TreeNodeItem` is rendered with. */
  datatype ItemProps = ItemProps(node: TreeNode, level: nat, path: seq<string>, defaultExpanded: bool)

  /** `defaultExpanded = false`. */
  function ExpandedDefault(d: Option<bool>): bool {
    match d
    case Some(b) => b
    case None => false
  }

  /** The root items `FolderTreeView` renders for its data. */
  function RootItems(data: seq<TreeNode>, defaultExpanded: Option<bool>): (r: seq<ItemProps>)
    ensures |r| == |data|
    ensures forall k :: 0 <= k < |data| ==>
      r[k] == ItemProps(data[k], 0, [data[k].name], ExpandedDefault(defaultExpanded))
  {
    seq(|data|, k requires 0 <= k < |data| =>
      ItemProps(data[k], 0, [data[k].name], ExpandedDefault(defaultExpanded)))
  }

  /** The props of each child item: one level deeper, the child's name
      appended to the path, the same default. */
  function ChildItems(p: ItemProps): (r: seq<ItemProps>)
    ensures |r| == |Kids(p.node)|
    ensures forall k :: 0 <= k < |r| ==>
      r[k] == ItemProps(Kids(p.node)[k], p.level + 1, p.path + [Kids(p.node)[k].name], p.defaultExpanded)
  {
    var cs := Kids(p.node);
    seq(|cs|, k requires 0 <= k < |cs| =>
      ItemProps(cs[k], p.level + 1, p.path + [cs[k].name], p.defaultExpanded))
  }

  /** An item's path has one name per level, and ends with its own name. */
  predicate WellPlaced(p: ItemProps) {
    |p.path| == p.level + 1 && p.path[p.level] == p.node.name
  }

  /** Root items are well placed. */
  lemma RootsWellPlaced(data: seq<TreeNode>, d: Option<bool>)
    ensures forall k :: 0 <= k < |data| ==>
      WellPlaced(RootItems(data, d)[k]) && RootItems(data, d)[k].path == [data[k].name]
  {
  }

  /** Children of a well-placed item are well placed, and their paths extend
      the parent's path by exactly one name. */
  lemma ChildrenWellPlaced(p: ItemProps)
    ensures WellPlaced(p) ==> forall k :: 0 <= k < |ChildItems(p)| ==> WellPlaced(ChildItems(p)[k])
    ensures forall k :: 0 <= k < |ChildItems(p)| ==>
      ChildItems(p)[k].path[..|p.path|] == p.path
      && |ChildItems(p)[k].path| == |p.path| + 1
  {
    forall k | 0 <= k < |ChildItems(p)| ensures ChildItems(p)[k].path[..|p.path|] == p.path {
      assert (p.path + [Kids(p.node)[k].name])[..|p.path|] == p.path;
    }
  }

  /** The item reached by following child indexes from an item. */
  function Descend(p: ItemProps, route: seq<nat>): Option<ItemProps>
    decreases |route|
  {
    if route == [] then Some(p)
    else if route[0] < |ChildItems(p)| then Descend(ChildItems(p)[route[0]], route[1..])
    else None
  }

  /** Reference definition: the names of the nodes passed when following
      child indexes through the data, and the node reached. */
  function RouteNames(n: TreeNode, route: seq<nat>): Option<(seq<string>, TreeNode)>
    decreases |route|
  {
    if route == [] then Some(([], n))
    else if route[0] < |Kids(n)| then
      var c := Kids(n)[route[0]];
      match RouteNames(c, route[1..])
      case Some((names, m)) => Some(([c.name] + names, m))
      case None => None
    else None
  }

  /** Every item below another sits |route| levels deeper, its path is the
      ancestor's path followed by the names along the way, and it carries the
      same default; so every item of the tree is well placed. */
  lemma {:induction false} DescendPath(p: ItemProps, route: seq<nat>)
    ensures Descend(p, route).Some? <==> RouteNames(p.node, route).Some?
    ensures Descend(p, route).Some? ==>
      var q := Descend(p, route).value;
      var (names, m) := RouteNames(p.node, route).value;
      && q.node == m
      && q.level == p.level + |route|
      && q.path == p.path + names
      && q.defaultExpanded == p.defaultExpanded
      && (WellPlaced(p) ==> WellPlaced(q))
    decreases |route|
  {
    if route != [] && route[0] < |ChildItems(p)| {
      var c := ChildItems(p)[route[0]];
      DescendPath(c, route[1..]);
      ChildrenWellPlaced(p);
      if Descend(p, route).Some? {
        var names := RouteNames(c.node, route[1..]).value.0;
        assert p.path + [c.node.name] + names == p.path + ([c.node.name] + names);
      }
    }
  }

  /** `paddingLeft: level * 20 + 8` pixels. */
  function Indent(level: nat): (px: nat)
    ensures px >= 8 && (px - 8) % 20 == 0
    ensures (px - 8) / 20 == level
  {
    level * 20 + 8
  }

  /** Each level indents twenty pixels further than its parent. */
  lemma ChildIndent(p: ItemProps)
    ensures forall k :: 0 <= k < |ChildItems(p)| ==> Indent(ChildItems(p)[k].level) == Indent(p.level) + 20
    ensures Indent(0) == 8
  {
  }

  /** A click on the item (or its toggle icon) updates the flag this way. */
  function Toggle(n: TreeNode, expanded: bool): (b: bool)
    ensures b != expanded <==> n.kind == Folder && HasChildren(n)
  {
    if Expandable(n) then !expanded else expanded
  }

  /** Flipping twice restores the flag. */
  lemma ToggleSpec(n: TreeNode, expanded: bool)
    ensures Toggle(n, Toggle(n, expanded)) == expanded
  {
  }

  /** The children are rendered iff the node is a folder, has children and is
      expanded. */
  function RenderedChildren(p: ItemProps, expanded: bool): (r: seq<ItemProps>)
    ensures r != [] <==> Expandable(p.node) && expanded
    ensures r != [] ==> r == ChildItems(p)
  {
    if p.node.kind == Folder && HasChildren(p.node) && expanded then ChildItems(p) else []
  }

  datatype Icon = OpenFolder | ClosedFolder | Document

  /** The icon shown before the name. */
  function IconOf(n: TreeNode, expanded: bool): (i: Icon)
    ensures i == Document <==> n.kind.Item?
    ensures i == OpenFolder <==> Expandable(n) && expanded
  {
    if n.kind == Folder then
      if HasChildren(n) && expanded then OpenFolder else ClosedFolder
    else Document
  }

  /** What `onItemClick(node, path)` receives. */
  datatype Click = Click(node: TreeNode, path: seq<string>)

  /** One rendered item with its own `isExpanded` state. */
  class TreeNodeItem {
    const props: ItemProps
    const hasCallback: bool
    var isExpanded: bool

    /** `useState(defaultExpanded)`. */
    constructor (props: ItemProps, hasCallback: bool)
      ensures this.props == props && this.hasCallback == hasCallback
      ensures isExpanded == props.defaultExpanded
    {
      this.props := props;
      this.hasCallback := hasCallback;
      isExpanded := props.defaultExpanded;
    }

    /** The toggle icon's handler: it stops the event before it reaches the
        item, so the callback is not invoked. */
    method HandleToggle()
      modifies this
      ensures isExpanded == Toggle(props.node, old(isExpanded))
    {
      if props.node.kind == Folder && HasChildren(props.node) {
        isExpanded := !isExpanded;
      }
    }

    /** A click on the item: the same toggle, then the callback, if one was
        given, with the node and its path, whatever the node type. */
    method HandleClick() returns (call: Option<Click>)
      modifies this
      ensures isExpanded == Toggle(props.node, old(isExpanded))
      ensures call == if hasCallback then Some(Click(props.node, props.path)) else None
    {
      if props.node.kind == Folder && HasChildren(props.node) {
        isExpanded := !isExpanded;
      }
      call := None;
      if hasCallback {
        call := Some(Click(props.node, props.path));
      }
    }

    /** The child items rendered under this one: those of an expanded folder
        with children, each well placed below a well-placed item. */
    method VisibleChildren() returns (items: seq<ItemProps>)
      ensures items != [] <==> Expandable(props.node) && isExpanded
      ensures items != [] ==> items == ChildItems(props)
      ensures WellPlaced(props) ==> forall k :: 0 <= k < |items| ==> WellPlaced(items[k])
    {
      items := [];
      if props.node.kind == Folder && HasChildren(props.node) && isExpanded {
        items := ChildItems(props);
        ChildrenWellPlaced(props);
      }
    }
  }
}
