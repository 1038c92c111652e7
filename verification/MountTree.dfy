/** The mount tree: nodes with linked lists of children, changed in place by mount and searched
    by getMount and openFile. */
module MountTree {
  import opened Machine
  import opened Tokens
  import opened CStrings
  import opened MountMap

  class VFSMount {
    const name: string
    var file: Option<File>

    constructor (name: string)
      ensures this.name == name && file == None
    {
      this.name := name;
      file := None;
    }
  }

  class ListNode {
    const next: ListNode?
    const value: GenericTreeNode

    constructor (next: ListNode?, value: GenericTreeNode)
      ensures this.next == next && this.value == value
    {
      this.next, this.value := next, value;
    }
  }

  class List {
    var head: ListNode?

    constructor ()
      ensures head == null
    {
      head := null;
    }

    /** Puts a new node in front. */
    method Insert(value: GenericTreeNode) returns (node: ListNode)
      modifies this
      ensures head == node && node.value == value && node.next == old(head)
    {
      node := new ListNode(head, value);
      head := node;
    }
  }

  class GenericTreeNode {
    const children: List
    const value: VFSMount

    constructor (value: VFSMount)
      ensures this.value == value && fresh(children) && children.head == null
    {
      this.value := value;
      children := new List();
    }
  }

  /** The list from n on holds the nodes s. List nodes never change once made. */
  ghost predicate Spine(n: ListNode?, s: seq<GenericTreeNode>)
    decreases |s|
  {
    if n == null then s == [] else s != [] && n.value == s[0] && Spine(n.next, s[1..])
  }

  /** What the mutable parts of a node hold: its child list, and the file mounted there. */
  ghost predicate Node(node: GenericTreeNode, listed: seq<GenericTreeNode>, file: Option<File>)
    reads node.children, node.value
  {
    Spine(node.children.head, listed) && node.value.file == file
  }

  /** What the tree stands for: the node at each path, its children in list order, and the file
      mounted there; and the objects that hold this, the child lists and mounts. */
  datatype Model = Model(nodes: map<Path, GenericTreeNode>, kids: map<Path, seq<GenericTreeNode>>, files: Table,
                         repr: set<object>)

  /** The children listed at p are nodes one step below it, under their own names. */
  ghost predicate Children(nodes: map<Path, GenericTreeNode>, p: Path, listed: seq<GenericTreeNode>) {
    forall c :: c in listed ==>
      Plain(c.value.name) && c.value.name != "" && Child(p, c.value.name) in nodes && nodes[Child(p, c.value.name)] == c
  }

  /** And every node one step below is listed. */
  ghost predicate Complete(nodes: map<Path, GenericTreeNode>, p: Path, listed: seq<GenericTreeNode>) {
    forall t {:trigger Child(p, t)} :: Child(p, t) in nodes ==> nodes[Child(p, t)] in listed
  }

  /** Every node is at one path only. */
  ghost predicate Separated(nodes: map<Path, GenericTreeNode>) {
    forall p, q :: p in nodes && q in nodes && p != q ==>
      nodes[p].children != nodes[q].children && nodes[p].value != nodes[q].value
  }

  /** The model is a tree. */
  ghost predicate Shape(m: Model, tree: GenericTreeNode) {
    && Closed(m.nodes.Keys) && m.nodes[[]] == tree && m.kids.Keys == m.nodes.Keys == m.files.Keys
    && Separated(m.nodes)
    && (forall p :: p in m.nodes ==> Children(m.nodes, p, m.kids[p]) && Complete(m.nodes, p, m.kids[p]))
  }

  /** Siblings have different names: at most one listed child of p is called t, and there is one
      exactly when p extended by t is a path of the tree. */
  lemma SiblingsDiffer(m: Model, tree: GenericTreeNode, p: Path, t: string)
    requires Shape(m, tree) && p in m.nodes
    ensures forall c, d :: c in m.kids[p] && d in m.kids[p] && c.value.name == d.value.name ==> c == d
    ensures forall c :: c in m.kids[p] && c.value.name == t ==> Child(p, t) in m.nodes && m.nodes[Child(p, t)] == c
    ensures Child(p, t) in m.nodes ==> m.nodes[Child(p, t)] in m.kids[p] && m.nodes[Child(p, t)].value.name == t
  {
    assert Children(m.nodes, p, m.kids[p]) && Complete(m.nodes, p, m.kids[p]);
    if Child(p, t) in m.nodes {
      var c := m.nodes[Child(p, t)];
      assert c in m.kids[p];
      ChildPath(p, t, p, c.value.name);
    }
  }

  lemma ClosedAdd(keys: set<Path>, q: Path, token: string)
    requires Closed(keys) && q in keys
    ensures Closed(keys + {Child(q, token)})
  {
    ChildPath(q, token, q, token);
  }

  /** The model with a new child of q, listed first. */
  ghost function WithChild(m: Model, q: Path, token: string, node: GenericTreeNode): Model
    requires q in m.kids
  {
    var here := Child(q, token);
    Model(m.nodes[here := node], m.kids[q := [node] + m.kids[q]][here := []], m.files[here := None],
          m.repr + {node.children, node.value})
  }

  lemma SeparatedAdd(nodes: map<Path, GenericTreeNode>, here: Path, node: GenericTreeNode)
    requires Separated(nodes)
    requires forall p :: p in nodes ==> nodes[p].children != node.children && nodes[p].value != node.value
    ensures Separated(nodes[here := node])
  {
  }

  /** The children of a node other than the new one: for its parent, the new one comes first. */
  lemma ChildrenAdd(nodes: map<Path, GenericTreeNode>, p: Path, listed: seq<GenericTreeNode>, q: Path, token: string,
                    node: GenericTreeNode)
    requires Children(nodes, p, listed) && Complete(nodes, p, listed) && Child(q, token) !in nodes
    requires Plain(token) && token != "" && node.value.name == token
    ensures var after, listed' := nodes[Child(q, token) := node], if p == q then [node] + listed else listed;
      Children(after, p, listed') && Complete(after, p, listed')
  {
    var after, listed' := nodes[Child(q, token) := node], if p == q then [node] + listed else listed;
    forall t | Child(p, t) in after
      ensures after[Child(p, t)] in listed'
    {
      ChildPath(p, t, q, token);
    }
  }

  lemma ShapeAdd(m: Model, tree: GenericTreeNode, q: Path, token: string, node: GenericTreeNode)
    requires Shape(m, tree) && q in m.nodes && Child(q, token) !in m.nodes
    requires Plain(token) && token != "" && node.value.name == token
    requires forall p :: p in m.nodes ==> m.nodes[p].children != node.children && m.nodes[p].value != node.value
    ensures Shape(WithChild(m, q, token, node), tree)
  {
    var here := Child(q, token);
    var m' := WithChild(m, q, token, node);
    ChildPath(q, token, q, token);
    ClosedAdd(m.nodes.Keys, q, token);
    SeparatedAdd(m.nodes, here, node);
    assert m'.nodes.Keys == m.nodes.Keys + {here};
    forall p | p in m'.nodes
      ensures Children(m'.nodes, p, m'.kids[p]) && Complete(m'.nodes, p, m'.kids[p])
    {
      if p == here {
        NoGrandchildren(m.nodes.Keys, here);
      } else {
        ChildrenAdd(m.nodes, p, m.kids[p], q, token, node);
      }
    }
  }

  lemma NoGrandchildren(keys: set<Path>, here: Path)
    requires Closed(keys) && here !in keys
    ensures forall t {:trigger Child(here, t)} :: Child(here, t) !in keys && Child(here, t) != here
  {
    forall t
      ensures Child(here, t) !in keys && Child(here, t) != here
    {
      ChildPath(here, t, here, t);
    }
  }

  /** The objects hold what the model says. */
  ghost predicate Represents(m: Model)
    requires m.kids.Keys == m.nodes.Keys == m.files.Keys
    reads m.repr
  {
    forall p :: p in m.nodes ==>
      && m.nodes[p].children in m.repr && m.nodes[p].value in m.repr
      && Node(m.nodes[p], m.kids[p], m.files[p])
  }

  lemma RepresentsAdd(m: Model, q: Path, token: string, node: GenericTreeNode)
    requires m.kids.Keys == m.nodes.Keys == m.files.Keys && q in m.nodes && Child(q, token) != q
    requires forall p :: p in m.nodes ==> m.nodes[p].children in m.repr && m.nodes[p].value in m.repr
    requires forall p :: p in m.nodes && p != q ==> Node(m.nodes[p], m.kids[p], m.files[p])
    requires Node(m.nodes[q], [node] + m.kids[q], m.files[q]) && Node(node, [], None)
    ensures Represents(WithChild(m, q, token, node))
  {
  }

  class VFS {
    var root: Option<File>
    var tree: GenericTreeNode
    ghost var model: Model
    ghost predicate Valid()
      reads this, model.repr
    {
      this !in model.repr && Shape(model, tree) && Represents(model)
    }

    /** init: an empty root. */
    constructor ()
      ensures Valid() && fresh(model.repr) && model.files == map[[] := None]
    {
      var mount := new VFSMount("root");
      var node := new GenericTreeNode(mount);
      tree := node;
      root := None;
      model := Model(map[[] := node], map[[] := []], map[[] := None], {mount, node.children});
      new;
      forall t
        ensures Child([], t) !in model.nodes
      {
        ChildPath([], t, [], t);
      }
    }

    /** The search of mountRecursive: it runs to the end of the list, so the last match wins. */
    method LastMatch(subroot: GenericTreeNode, token: string, ghost q: Path) returns (found: GenericTreeNode?)
      requires Valid() && q in model.nodes && model.nodes[q] == subroot && Plain(token)
      ensures found == if Child(q, token) in model.nodes then model.nodes[Child(q, token)] else null
    {
      found := null;
      var child := subroot.children.head;
      ghost var all, i := model.kids[q], 0;
      while child != null
        invariant i <= |all| && Spine(child, all[i..])
        invariant found != null ==> found in all && found.value.name == token
        invariant found == null ==> forall k :: 0 <= k < i ==> all[k].value.name != token
        decreases |all| - i
      {
        var r := Strcmp(child.value.value.name, token);
        if r == 0 {
          found := child.value;
        }
        child := child.next;
        i := i + 1;
      }
      SearchDone(q, token, found);
    }

    /** The search of getMountRecursive: it stops at the first match. */
    method FirstMatch(subroot: GenericTreeNode, token: string, ghost q: Path) returns (found: GenericTreeNode?)
      requires Valid() && q in model.nodes && model.nodes[q] == subroot && Plain(token)
      ensures found == if Child(q, token) in model.nodes then model.nodes[Child(q, token)] else null
    {
      found := null;
      var child := subroot.children.head;
      ghost var all, i := model.kids[q], 0;
      while child != null
        invariant i <= |all| && Spine(child, all[i..])
        invariant found == null
        invariant forall k :: 0 <= k < i ==> all[k].value.name != token
        decreases |all| - i
      {
        var r := Strcmp(child.value.value.name, token);
        if r == 0 {
          assert all[i..][0] == child.value && child.value in all;
          found := child.value;
          SearchDone(q, token, found);
          return;
        }
        child := child.next;
        i := i + 1;
      }
      SearchDone(q, token, found);
    }

    lemma SearchDone(q: Path, token: string, found: GenericTreeNode?)
      requires Valid() && q in model.nodes
      requires found != null ==> found in model.kids[q] && found.value.name == token
      requires found == null ==> forall k :: 0 <= k < |model.kids[q]| ==> model.kids[q][k].value.name != token
      ensures found == if Child(q, token) in model.nodes then model.nodes[Child(q, token)] else null
    {
      SiblingsDiffer(model, tree, q, token);
    }

    /** The model catches up with the objects. */
    ghost method SetModel(m: Model)
      requires this !in m.repr && Shape(m, tree) && Represents(m)
      modifies this`model
      ensures Valid() && model == m
    {
      model := m;
    }

    /** A new child without a file, in front of the others. */
    method AddChild(subroot: GenericTreeNode, token: string, ghost q: Path) returns (node: GenericTreeNode)
      requires Valid() && q in model.nodes && model.nodes[q] == subroot && Child(q, token) !in model.nodes
      requires Plain(token) && token != ""
      modifies this`model, subroot.children
      ensures Valid() && model == WithChild(old(model), q, token, node)
      ensures fresh(node.children) && fresh(node.value)
    {
      node := Attach(subroot, token, model, tree, q);
      SetModel(WithChild(model, q, token, node));
    }

    /** entry->file = file at the node of q. */
    method SetFile(node: GenericTreeNode, file: Option<File>, ghost q: Path)
      requires Valid() && q in model.nodes && model.nodes[q] == node
      modifies this`model, node.value
      ensures Valid() && model == old(model).(files := old(model.files)[q := file])
    {
      ghost var m := model;
      node.value.file := file;
      forall p | p in m.nodes && p != q
        ensures Node(m.nodes[p], m.kids[p], m.files[p])
      {
        assert old(Node(m.nodes[p], m.kids[p], m.files[p])) && m.nodes[p].value != node.value;
      }
      assert old(Node(node, m.kids[q], m.files[q]));
      SetModel(m.(files := m.files[q := file]));
    }

    /** One level of mountRecursive: the child with that name, made if there is none. */
    method Step(subroot: GenericTreeNode, token: string, ghost q: Path) returns (child: GenericTreeNode)
      requires Valid() && q in model.nodes && model.nodes[q] == subroot && Plain(token) && token != ""
      modifies this`model, subroot.children
      ensures Valid() && Child(q, token) in model.nodes && model.nodes[Child(q, token)] == child
      ensures forall o :: o in model.repr && o !in old(model.repr) ==> fresh(o)
      ensures model.files == if Child(q, token) in old(model.files) then old(model.files)
                             else old(model.files)[Child(q, token) := None]
    {
      var found := LastMatch(subroot, token, q);
      if found == null {
        child := AddChild(subroot, token, q);
      } else {
        child := found;
      }
    }

    /** Walks down from the node of q, adding what is missing, and sets the file at the end; a
        file already there is replaced. */
    method MountRecursive(path: array<char>, cursor: Option<nat>, subroot: GenericTreeNode, file: Option<File>,
                          ghost rest: Option<string>, ghost q: Path)
      requires Valid() && q in model.nodes && model.nodes[q] == subroot
      requires Reads(path[..], cursor, rest) && (path as object) !in model.repr
      modifies this`model, model.repr, path
      ensures Valid() && forall o :: o in model.repr && o !in old(model.repr) ==> fresh(o)
      ensures model.files == Mounted(old(model.files), q, Steps(rest), file)
      decreases if rest.Some? then |rest.value| + 1 else 0, 1
    {
      var token, next := NextToken(path, cursor, SLASH, rest);
      if token.None? || token.value == "" {
        SetFile(subroot, file, q);
        return;
      }
      MountBelow(path, token.value, next, subroot, file, Separate(rest.value, SLASH).1, q);
    }

    /** The rest of one level of mountRecursive, once its token has been read. */
    method MountBelow(path: array<char>, token: string, cursor: Option<nat>, subroot: GenericTreeNode,
                      file: Option<File>, ghost rest: Option<string>, ghost q: Path)
      requires Valid() && q in model.nodes && model.nodes[q] == subroot && Plain(token) && token != ""
      requires Reads(path[..], cursor, rest) && (path as object) !in model.repr
      modifies this`model, model.repr, path
      ensures Valid() && forall o :: o in model.repr && o !in old(model.repr) ==> fresh(o)
      ensures model.files == Mounted(old(model.files), q, [token] + Steps(rest), file)
      decreases if rest.Some? then |rest.value| + 1 else 0, 2
    {
      var child := Step(subroot, token, q);
      MountRecursive(path, cursor, child, file, rest, Child(q, token));
      assert ([token] + Steps(rest))[1..] == Steps(rest);
    }

    /** Walks down from the node of q as far as the tokens match. */
    method GetMountRecursive(path: array<char>, cursor: Option<nat>, subroot: GenericTreeNode,
                             ghost rest: Option<string>, ghost q: Path)
      returns (mount: VFSMount, cursor': Option<nat>)
      requires Valid() && q in model.nodes && model.nodes[q] == subroot
      requires Reads(path[..], cursor, rest) && (path as object) !in model.repr
      modifies path
      ensures var (p, left) := Descend(model.nodes.Keys, q, rest);
        p in model.nodes && mount == model.nodes[p].value && Reads(path[..], cursor', left)
      decreases if rest.Some? then |rest.value| + 1 else 0
    {
      var token, next := NextToken(path, cursor, SLASH, rest);
      if token.None? || token.value == "" {
        return subroot.value, next;
      }
      var child := FirstMatch(subroot, token.value, q);
      if child == null {
        return subroot.value, next;
      }
      mount, cursor' := GetMountRecursive(path, next, child, Separate(rest.value, SLASH).1, Child(q, token.value));
    }

    /** Whether the path is just a slash. */
    method IsRoot(path: array<char>, ghost p: string) returns (b: bool)
      requires Holds(path[..], 0, p)
      ensures b <==> p == SLASH
    {
      HoldsAt(path[..], 0, p, 0);
      var len := Strlen(path, 0, p);
      b := path[0] == '/' && len == 1;
    }

    /** The root takes one file, once; any other path goes through the tree, with the missing
        nodes made on the way and a file already mounted there replaced. */
    method Mount(path: array<char>, file: Option<File>, ghost p: string) returns (ok: bool)
      requires Valid() && Holds(path[..], 0, p) && p != ""
      modifies this`model, this`root, model.repr
      ensures Valid() && forall o :: o in model.repr && o !in old(model.repr) ==> fresh(o)
      ensures ok <==> p != SLASH || old(model.files)[[]].None?
      ensures root == if ok && p == SLASH then file else old(root)
      ensures model.files == if !ok then old(model.files) else if p == SLASH then old(model.files)[[] := file]
                             else Mounted(old(model.files), [], Steps(Some(p[1..])), file)
    {
      var atRoot := IsRoot(path, p);
      if atRoot {
        ok := MountRoot(file);
        return;
      }
      HoldsTail(path[..], 0, p);
      var dup := Strdup(path, 1, p[1..]);
      MountRecursive(dup, Some(0), tree, file, Some(p[1..]), []);
      ok := true;
    }

    method MountRoot(file: Option<File>) returns (ok: bool)
      requires Valid()
      modifies this`model, this`root, tree.value
      ensures Valid() && model.repr == old(model.repr)
      ensures ok <==> old(model.files)[[]].None?
      ensures root == if ok then file else old(root)
      ensures model.files == if ok then old(model.files)[[] := file] else old(model.files)
    {
      assert Node(model.nodes[[]], model.kids[[]], model.files[[]]);
      if tree.value.file.Some? {
        return false;
      }
      root := file;
      SetFile(tree, file, []);
      ok := true;
    }

    /** The lookup of openFile: the root path is left as it is, any other is read as far as it
        matches. */
    method GetMount(path: array<char>, ghost p: string) returns (mount: VFSMount, cursor: Option<nat>)
      requires Valid() && Holds(path[..], 0, p) && p != "" && (path as object) !in model.repr
      modifies path
      ensures var (q, left) := Lookup(model.nodes.Keys, p);
        q in model.nodes && mount == model.nodes[q].value && Reads(path[..], cursor, left)
    {
      var atRoot := IsRoot(path, p);
      if atRoot {
        return tree.value, Some(0);
      }
      HoldsTail(path[..], 0, p);
      mount, cursor := GetMountRecursive(path, Some(1), tree, Some(p[1..]), []);
    }

    /** The other lookup: it works on a copy, and leaves the path alone. */
    method GetMountOf(path: array<char>, ghost p: string) returns (mount: VFSMount)
      requires Valid() && Holds(path[..], 0, p) && p != ""
      ensures var q := Lookup(model.nodes.Keys, p).0;
        q in model.nodes && mount == model.nodes[q].value && mount.file == model.files[q]
    {
      ghost var q := Lookup(model.nodes.Keys, p).0;
      var atRoot := IsRoot(path, p);
      if atRoot {
        mount := tree.value;
      } else {
        HoldsTail(path[..], 0, p);
        var pathDup := Strdup(path, 1, p[1..]);
        var left;
        mount, left := GetMountRecursive(pathDup, Some(0), tree, Some(p[1..]), []);
      }
      assert Node(model.nodes[q], model.kids[q], model.files[q]);
    }

    /** Opens a path. `find` stands for the storage objects: what they answer to findDirectory. */
    method OpenFile(path: array<char>, find: (File, string) -> Option<File>, ghost p: string)
      returns (node: Option<File>)
      requires Valid() && Holds(path[..], 0, p) && p != ""
      ensures node == Open(model.files, p, find)
    {
      var filename := Strdup(path, 0, p);
      var filenameStart := Strdup(filename, 0, p);
      var mount, left := GetMount(filename, p);
      ghost var q := Lookup(model.nodes.Keys, p).0;
      assert Node(model.nodes[q], model.kids[q], model.files[q]);
      if left.None? {
        return mount.file;
      }
      node := AskStorage(filenameStart, mount.file, find, p);
    }
  }

  /** The loop of openFile: every token of the whole path is looked up in turn, until one is not
      found. */
  method AskStorage(path: array<char>, first: Option<File>, find: (File, string) -> Option<File>, ghost p: string)
    returns (node: Option<File>)
    requires Holds(path[..], 0, p)
    modifies path
    ensures node == FindAll(find, first, Split(p, SLASH))
  {
    CallsAreSplit(p, SLASH);
    var start := first;
    var cursor := Some(0);
    ghost var rest, names := Some(p), Split(p, SLASH);
    while true
      invariant Reads(path[..], cursor, rest) && names == Calls(rest, SLASH)
      invariant FindAll(find, first, Split(p, SLASH)) == FindAll(find, start, names)
      decreases if rest.Some? then |rest.value| + 1 else 0
    {
      var token;
      token, cursor := NextToken(path, cursor, SLASH, rest);
      if token.None? {
        return start;
      }
      var next := Find(find, start, token.value);
      if next.None? {
        return None;
      }
      start := next;
      rest := Separate(rest.value, SLASH).1;
      assert names[0] == token.value && names[1..] == Calls(rest, SLASH);
      names := names[1..];
    }
  }

  /** The node, its list and its mount are new, and it goes into the list of subroot. */
  method Attach(subroot: GenericTreeNode, token: string, ghost m: Model, ghost tree: GenericTreeNode, ghost q: Path)
    returns (node: GenericTreeNode)
    requires Shape(m, tree) && Represents(m) && q in m.nodes && m.nodes[q] == subroot && Child(q, token) !in m.nodes
    requires Plain(token) && token != ""
    modifies subroot.children
    ensures fresh(node.children) && fresh(node.value)
    ensures Shape(WithChild(m, q, token, node), tree) && Represents(WithChild(m, q, token, node))
  {
    var entry := new VFSMount(token);
    node := new GenericTreeNode(entry);
    ShapeAdd(m, tree, q, token, node);
    ChildPath(q, token, q, token);
    var listed := subroot.children.Insert(node);
    assert ([node] + m.kids[q])[1..] == m.kids[q];
    forall p | p in m.nodes && p != q
      ensures Node(m.nodes[p], m.kids[p], m.files[p])
    {
      assert old(Node(m.nodes[p], m.kids[p], m.files[p])) && m.nodes[p].children != subroot.children;
    }
    RepresentsAdd(m, q, token, node);
  }
}
