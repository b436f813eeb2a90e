/** The tree of named files and directories: looking paths up and creating what they lack. */
module Inodes {
  import opened Bytes
  import opened Paths

  class Inode {
    var name: string
    var fullCanonicalPath: string
    var isDirectory: bool
    /** By canonical name: names that compare equal share an entry. */
    var children: map<string, Inode>

    constructor (name: string, fullCanonicalPath: string, isDirectory: bool)
      ensures this.name == name && this.fullCanonicalPath == fullCanonicalPath && this.isDirectory == isDirectory
      ensures children == map[]
    {
      this.name, this.fullCanonicalPath, this.isDirectory, children := name, fullCanonicalPath, isDirectory, map[];
    }
  }

  /** The children of every inode, at one moment. */
  type Shape = map<Inode, map<string, Inode>>

  ghost predicate Closed(shape: Shape) {
    forall n, k :: n in shape && k in shape[n] ==> shape[n][k] in shape
  }

  /** Where a list of names leads. */
  ghost function Walk(shape: Shape, canonical: string -> string, from: Inode, names: seq<string>): (r: Option<Inode>)
    requires Closed(shape) && from in shape
    ensures r.Some? ==> r.value in shape
  {
    if names == [] then Some(from)
    else if canonical(names[0]) !in shape[from] then None
    else Walk(shape, canonical, shape[from][canonical(names[0])], names[1..])
  }

  /** How many of the names can be followed. */
  ghost function Depth(shape: Shape, canonical: string -> string, from: Inode, names: seq<string>): (d: nat)
    requires Closed(shape) && from in shape
    ensures d <= |names|
    ensures d == |names| <==> Walk(shape, canonical, from, names).Some?
  {
    if names == [] || canonical(names[0]) !in shape[from] then 0
    else 1 + Depth(shape, canonical, shape[from][canonical(names[0])], names[1..])
  }

  /** Walking in two stages. */
  lemma {:induction false} WalkOn(shape: Shape, canonical: string -> string, from: Inode, names: seq<string>,
                                  more: seq<string>)
    requires Closed(shape) && from in shape
    ensures Walk(shape, canonical, from, names + more) ==
      match Walk(shape, canonical, from, names) case None => None case Some(n) => Walk(shape, canonical, n, more)
    ensures Walk(shape, canonical, from, names).Some? ==>
      Depth(shape, canonical, from, names + more) ==
        |names| + Depth(shape, canonical, Walk(shape, canonical, from, names).value, more)
    decreases |names|
  {
    if names == [] {
      assert names + more == more;
    } else {
      assert (names + more)[1..] == names[1..] + more;
      if canonical(names[0]) in shape[from] {
        WalkOn(shape, canonical, shape[from][canonical(names[0])], names[1..], more);
      }
    }
  }

  /** A new child under a name that was free. */
  ghost function Grown(shape: Shape, parent: Inode, key: string, child: Inode): Shape
    requires parent in shape
  {
    shape[parent := shape[parent][key := child]][child := map[]]
  }

  lemma GrownIsClosed(shape: Shape, parent: Inode, key: string, child: Inode)
    requires Closed(shape) && parent in shape && child !in shape
    ensures Closed(Grown(shape, parent, key, child))
  {
  }

  /** What could be resolved still is, to the same inode. */
  lemma {:induction false} WalkKept(shape: Shape, canonical: string -> string, parent: Inode, key: string, child: Inode,
                                    from: Inode, names: seq<string>)
    requires Closed(shape) && parent in shape && child !in shape && key !in shape[parent] && from in shape
    requires Closed(Grown(shape, parent, key, child)) && Walk(shape, canonical, from, names).Some?
    ensures Walk(Grown(shape, parent, key, child), canonical, from, names) == Walk(shape, canonical, from, names)
    decreases |names|
  {
    if names != [] {
      WalkKept(shape, canonical, parent, key, child, shape[from][canonical(names[0])], names[1..]);
    }
  }

  /** One more name of a path can be followed when the first missing one is created. */
  lemma {:induction false} DepthGrows(shape: Shape, canonical: string -> string, parent: Inode, child: Inode,
                                      from: Inode, names: seq<string>, d: nat)
    requires Closed(shape) && from in shape && parent in shape && child !in shape && d < |names|
    requires Walk(shape, canonical, from, names[..d]) == Some(parent) && canonical(names[d]) !in shape[parent]
    requires Closed(Grown(shape, parent, canonical(names[d]), child))
    ensures Walk(Grown(shape, parent, canonical(names[d]), child), canonical, from, names[..d + 1]) == Some(child)
    ensures Depth(Grown(shape, parent, canonical(names[d]), child), canonical, from, names) == d + 1
  {
    var grown := Grown(shape, parent, canonical(names[d]), child);
    WalkKept(shape, canonical, parent, canonical(names[d]), child, from, names[..d]);
    assert names[..d + 1] == names[..d] + [names[d]];
    WalkOn(grown, canonical, from, names[..d], [names[d]]);
    assert names == names[..d + 1] + names[d + 1..];
    WalkOn(grown, canonical, from, names[..d + 1], names[d + 1..]);
  }

  /** The first name that cannot be followed is missing where the walk stops. */
  lemma {:induction false} StopsAt(shape: Shape, canonical: string -> string, from: Inode, names: seq<string>)
    requires Closed(shape) && from in shape
    ensures var d := Depth(shape, canonical, from, names);
      && Walk(shape, canonical, from, names[..d]).Some?
      && (d < |names| ==> canonical(names[d]) !in shape[Walk(shape, canonical, from, names[..d]).value])
    decreases |names|
  {
    if names != [] && canonical(names[0]) in shape[from] {
      StopsAt(shape, canonical, shape[from][canonical(names[0])], names[1..]);
      var d := Depth(shape, canonical, from, names);
      assert names[..d][1..] == names[1..][..d - 1];
    }
  }

  /** The first `j` names can be followed when no more than can be followed. */
  lemma {:induction false} WalkIfDeep(shape: Shape, canonical: string -> string, from: Inode, names: seq<string>,
                                      j: nat)
    requires Closed(shape) && from in shape && j <= |names|
    ensures Walk(shape, canonical, from, names[..j]).Some? <==> j <= Depth(shape, canonical, from, names)
    decreases |names|
  {
    if j > 0 && canonical(names[0]) in shape[from] {
      assert names[..j][1..] == names[1..][..j - 1];
      WalkIfDeep(shape, canonical, shape[from][canonical(names[0])], names[1..], j - 1);
    }
  }

  /** What only resolves now is the new inode. */
  lemma {:induction false} WalkAdded(shape: Shape, canonical: string -> string, parent: Inode, key: string,
                                     child: Inode,
                                     from: Inode, names: seq<string>)
    requires Closed(shape) && parent in shape && child !in shape && key !in shape[parent] && from in shape
    requires Closed(Grown(shape, parent, key, child)) && Walk(shape, canonical, from, names) == None
    ensures Walk(Grown(shape, parent, key, child), canonical, from, names) in {None, Some(child)}
    decreases |names|
  {
    var grown := Grown(shape, parent, key, child);
    var first := canonical(names[0]);
    if first in shape[from] {
      WalkAdded(shape, canonical, parent, key, child, shape[from][first], names[1..]);
    } else if from == parent && first == key {
      assert grown[child] == map[];
    }
  }

  /** Everything that resolved still does, to the same inode, and what resolves in addition is new. */
  ghost predicate Extends(before: Shape, after: Shape, canonical: string -> string, root: Inode) {
    && Closed(before) && Closed(after) && root in before && before.Keys <= after.Keys
    && (forall names :: Walk(before, canonical, root, names).Some? ==>
          Walk(after, canonical, root, names) == Walk(before, canonical, root, names))
    && (forall names :: Walk(before, canonical, root, names) == None && Walk(after, canonical, root, names).Some? ==>
          Walk(after, canonical, root, names).value !in before)
  }

  lemma {:induction false} GrownExtends(shape: Shape, canonical: string -> string, parent: Inode, key: string,
                                        child: Inode, root: Inode)
    requires Closed(shape) && root in shape && parent in shape && child !in shape && key !in shape[parent]
    ensures Extends(shape, Grown(shape, parent, key, child), canonical, root)
  {
    hide Walk;
    GrownIsClosed(shape, parent, key, child);
    forall names | Walk(shape, canonical, root, names).Some?
      ensures Walk(Grown(shape, parent, key, child), canonical, root, names) == Walk(shape, canonical, root, names)
    {
      WalkKept(shape, canonical, parent, key, child, root, names);
    }
    forall names | Walk(shape, canonical, root, names) == None
      ensures Walk(Grown(shape, parent, key, child), canonical, root, names) in {None, Some(child)}
    {
      WalkAdded(shape, canonical, parent, key, child, root, names);
    }
  }

  lemma {:induction false} ExtendsTwice(a: Shape, b: Shape, c: Shape, canonical: string -> string, root: Inode)
    requires Extends(a, b, canonical, root) && Extends(b, c, canonical, root)
    ensures Extends(a, c, canonical, root)
  {
    hide Walk;
    forall names | Walk(a, canonical, root, names) == None && Walk(c, canonical, root, names).Some?
      ensures Walk(c, canonical, root, names).value !in a
    {
      if Walk(b, canonical, root, names).Some? {
        assert Walk(c, canonical, root, names) == Walk(b, canonical, root, names);
      }
    }
  }

  lemma {:induction false} ExtendsItself(a: Shape, canonical: string -> string, root: Inode)
    requires Closed(a) && root in a
    ensures Extends(a, a, canonical, root)
  {
  }

  /** What an inode says of itself. */
  datatype Label = Label(name: string, fullCanonicalPath: string, isDirectory: bool)

  /** The inode that the first `k` names of a path lead to, if it is not one of those known before, has the last
      of them for its name and all of them for its path, and is a directory unless the path ends there. */
  ghost predicate Labelled(shape: Shape, labels: map<Inode, Label>, canonical: string -> string, root: Inode,
                           names: seq<string>, k: nat, known: set<Inode>)
    requires Closed(shape) && root in shape && labels.Keys == shape.Keys && 1 < k <= |names|
  {
    var found := Walk(shape, canonical, root, names[1..k]);
    found.Some? && found.value !in known ==>
      labels[found.value] == Label(names[k - 1], Join(names[..k]), k < |names|)
  }

  ghost predicate AllLabelled(shape: Shape, labels: map<Inode, Label>, canonical: string -> string, root: Inode,
                              names: seq<string>, known: set<Inode>)
    requires Closed(shape) && root in shape && labels.Keys == shape.Keys
  {
    forall k :: 1 < k <= |names| ==> Labelled(shape, labels, canonical, root, names, k, known)
  }

  /** What can be followed only now is followed to the new inode. */
  lemma {:induction false} NewlyFound(shape: Shape, canonical: string -> string, root: Inode, names: seq<string>,
                                      parent: Inode, child: Inode, d: nat, k: nat)
    requires Closed(shape) && root in shape && parent in shape && child !in shape
    requires d + 1 < |names| && 1 < k <= |names|
    requires Walk(shape, canonical, root, names[1..][..d]) == Some(parent)
    requires canonical(names[1..][d]) !in shape[parent]
    ensures var after := Grown(shape, parent, canonical(names[1..][d]), child);
      && Closed(after)
      && (Walk(shape, canonical, root, names[1..k]).Some? ==>
            Walk(after, canonical, root, names[1..k]) == Walk(shape, canonical, root, names[1..k]))
      && (Walk(shape, canonical, root, names[1..k]) == None ==>
            Walk(after, canonical, root, names[1..k]) == None
            || (k == d + 2 && Walk(after, canonical, root, names[1..k]) == Some(child)))
  {
    hide Walk, Depth, Grown, Closed;
    var key, after := canonical(names[1..][d]), Grown(shape, parent, canonical(names[1..][d]), child);
    GrownIsClosed(shape, parent, key, child);
    GrownHas(shape, parent, key, child, root);
    DepthGrows(shape, canonical, parent, child, root, names[1..], d);
    assert names[1..k] == names[1..][..k - 1];
    if Walk(shape, canonical, root, names[1..k]).Some? {
      WalkKept(shape, canonical, parent, key, child, root, names[1..k]);
    } else {
      WalkIfDeep(shape, canonical, root, names[1..], d);
      WalkIfDeep(shape, canonical, root, names[1..], k - 1);
      WalkIfDeep(after, canonical, root, names[1..], k - 1);
    }
  }

  lemma GrownHas(shape: Shape, parent: Inode, key: string, child: Inode, n: Inode)
    requires parent in shape && n in shape
    ensures n in Grown(shape, parent, key, child) && Grown(shape, parent, key, child).Keys == shape.Keys + {child}
  {
  }

  /** With the label of its place, a new inode leaves all labelled. */
  lemma {:induction false} StillLabelled(shape: Shape, labels: map<Inode, Label>, canonical: string -> string,
                                         root: Inode, names: seq<string>, known: set<Inode>, parent: Inode,
                                         child: Inode, d: nat)
    requires Closed(shape) && root in shape && parent in shape && child !in shape && labels.Keys == shape.Keys
    requires AllLabelled(shape, labels, canonical, root, names, known) && d + 1 < |names|
    requires Walk(shape, canonical, root, names[1..][..d]) == Some(parent)
    requires canonical(names[1..][d]) !in shape[parent]
    ensures var after := Grown(shape, parent, canonical(names[1..][d]), child);
      var labelsAfter := labels[child := Label(names[d + 1], Join(names[..d + 2]), d + 2 < |names|)];
      && Closed(after) && root in after && labelsAfter.Keys == after.Keys
      && AllLabelled(after, labelsAfter, canonical, root, names, known)
  {
    hide Walk, Grown, Closed, Join;
    GrownIsClosed(shape, parent, canonical(names[1..][d]), child);
    GrownHas(shape, parent, canonical(names[1..][d]), child, root);
    var after := Grown(shape, parent, canonical(names[1..][d]), child);
    var labelsAfter := labels[child := Label(names[d + 1], Join(names[..d + 2]), d + 2 < |names|)];
    forall k: nat | 1 < k <= |names|
      ensures Labelled(after, labelsAfter, canonical, root, names, k, known)
    {
      assert Labelled(shape, labels, canonical, root, names, k, known);
      NewlyFound(shape, canonical, root, names, parent, child, d, k);
    }
  }

  lemma {:induction false} NothingNew(shape: Shape, labels: map<Inode, Label>, canonical: string -> string,
                                      root: Inode, names: seq<string>)
    requires Closed(shape) && root in shape && labels.Keys == shape.Keys
    ensures AllLabelled(shape, labels, canonical, root, names, shape.Keys)
  {
    hide Walk, Join;
  }

  class InodeTree {
    const root: Inode
    const canonical: string -> string
    ghost var nodes: set<Inode>

    ghost predicate Valid()
      reads this, nodes
    {
      root in nodes && Closed(Children())
    }

    ghost function Children(): Shape
      reads this, nodes
    {
      map n | n in nodes :: n.children
    }

    ghost function Labels(): map<Inode, Label>
      reads this, nodes
    {
      map n | n in nodes :: Label(n.name, n.fullCanonicalPath, n.isDirectory)
    }

    /** Every inode on the way of a path that was not known before is labelled for its place. */
    ghost predicate NewOnes(names: seq<string>, known: set<Inode>)
      requires Valid()
      reads this, nodes
    {
      AllLabelled(Children(), Labels(), canonical, root, names, known)
    }

    constructor (canonical: string -> string)
      ensures Valid() && this.canonical == canonical && fresh(nodes) && nodes == {root} && root.children == map[]
      ensures root.isDirectory
    {
      this.canonical := canonical;
      var top := new Inode("", "", true);
      root := top;
      nodes := {top};
    }

    /** Where a path leads, if it leads anywhere: its first name must be empty. */
    ghost function Resolved(path: string): Option<Inode>
      reads this, nodes
      requires Valid()
    {
      var names := Split(Strip(path));
      if names[0] != "" then None else Walk(Children(), canonical, root, names[1..])
    }

    /** `pathToInode`: follows the names of a path.  On success all but the last name have been found; `parent`
        is what they lead to, and `thisInode` what the last leads to.  Otherwise `thisName` is the first name
        missing, `parent` where it is missing, and `thisNameWithPath` the path up to it. */
    method PathToInode(initialPath: string)
      returns (ok: bool, parent: Inode?, thisName: string, thisInode: Inode?, thisNameWithPath: string)
      requires Valid()
      ensures var names := Split(Strip(initialPath));
        names[0] != "" ==> !ok && parent == null
      ensures var names := Split(Strip(initialPath));
        names[0] == "" ==> Followed(names, ok, parent, thisName, thisInode, thisNameWithPath)
    {
      hide Split, Strip, Find, Join, Walk, Depth, Followed;
      var path := Strip(initialPath);
      parent, thisInode, thisName, thisNameWithPath := null, null, "", "";
      var namePos := 0;
      ghost var names := Split(path);
      ghost var i := 0;
      var more := true;
      assert path[0..] == path && names[0..] == names;
      ok := true;
      while more
        invariant 0 <= namePos <= |path|
        invariant more ==> i < |names| && names[i..] == Split(path[namePos..]) && FoundBefore(names, i, parent)
        invariant i == 0 ==> namePos == 0
        invariant i > 0 || !more ==> names[0] == ""
        invariant more && i > 0 ==> path[..namePos] == Join(names[..i]) + [SEPARATOR]
        invariant !more ==> Followed(names, ok, parent, thisName, thisInode, thisNameWithPath)
        decreases more, |path| - namePos
      {
        var nextPart := Find(path, namePos);
        SplitStep(path, namePos);
        JoinSplit(path);
        if nextPart == None {
          thisName := path[namePos..];
          thisNameWithPath := path;
        } else {
          thisName := path[namePos..nextPart.value];
          thisNameWithPath := path[..nextPart.value];
          assert names[i..][1..] == names[i + 1..] == Split(path[nextPart.value + 1..]);
          NameWithPath(path, names, i, namePos, nextPart.value);
        }
        assert thisName == names[i..][0] == names[i] && (nextPart == None <==> i + 1 == |names|);
        if parent == null {
          if thisName != "" {
            return false, parent, thisName, thisInode, thisNameWithPath;
          }
          thisInode := root;
        } else if canonical(thisName) in parent.children {
          thisInode := parent.children[canonical(thisName)];
        } else {
          thisInode := null;
        }
        FollowedOne(names, i, parent, thisInode);
        if nextPart == None {
          more := false;
          FollowedToEnd(names, parent, thisName, thisInode, thisNameWithPath);
        } else if thisInode == null {
          ok := false;
          StoppedShort(names, i, parent, thisName, thisInode, thisNameWithPath);
          return;
        } else {
          parent := thisInode;
          namePos := nextPart.value + 1;
          i := i + 1;
        }
      }
    }

    /** The first `i` names have been found, and lead to `parent`. */
    ghost predicate FoundBefore(names: seq<string>, i: nat, parent: Inode?)
      requires Valid() && i <= |names|
      reads this, nodes
    {
      if i == 0 then parent == null
      else names[0] == "" && parent != null && Walk(Children(), canonical, root, names[1..i]) == Some(parent)
    }

    lemma {:induction false} FollowedOne(names: seq<string>, i: nat, parent: Inode?, thisInode: Inode?)
      requires Valid() && i < |names| && FoundBefore(names, i, parent)
      requires i == 0 ==> names[0] == "" && thisInode == root
      requires i > 0 ==> parent in nodes
      requires i > 0 ==>
        thisInode == if canonical(names[i]) in parent.children then parent.children[canonical(names[i])] else null
      ensures thisInode == OrNull(Walk(Children(), canonical, root, names[1..i + 1]))
      ensures thisInode != null ==> FoundBefore(names, i + 1, thisInode)
      ensures i > 0 ==> Depth(Children(), canonical, root, names[1..]) >= i - 1
      ensures i > 0 && thisInode == null ==> Depth(Children(), canonical, root, names[1..]) == i - 1
    {
      if i == 0 {
        assert names[1..1] == [];
      } else {
        assert names[1..i + 1] == names[1..i] + [names[i]] && names[1..] == names[1..i] + names[i..];
        WalkOn(Children(), canonical, root, names[1..i], [names[i]]);
        WalkOn(Children(), canonical, root, names[1..i], names[i..]);
      }
    }

    lemma {:induction false} FollowedToEnd(names: seq<string>, parent: Inode?, thisName: string, thisInode: Inode?,
                                           thisNameWithPath: string)
      requires Valid() && names != [] && FoundBefore(names, |names| - 1, parent) && names[0] == ""
      requires |names| == 1 ==> thisInode == root
      requires |names| > 1 ==> Depth(Children(), canonical, root, names[1..]) >= |names| - 2
      requires thisInode == OrNull(Walk(Children(), canonical, root, names[1..|names|]))
      requires thisName == names[|names| - 1] && thisNameWithPath == Join(names)
      ensures Followed(names, true, parent, thisName, thisInode, thisNameWithPath)
    {
      assert names[1..|names|] == names[1..];
    }

    lemma {:induction false} StoppedShort(names: seq<string>, i: nat, parent: Inode?, thisName: string,
                                          thisInode: Inode?, thisNameWithPath: string)
      requires Valid() && 0 < i < |names| - 1 && FoundBefore(names, i, parent)
      requires thisInode == null && Depth(Children(), canonical, root, names[1..]) == i - 1
      requires thisName == names[i] && thisNameWithPath == Join(names[..i + 1])
      ensures Followed(names, false, parent, thisName, thisInode, thisNameWithPath)
    {
    }

    lemma {:induction false} NameWithPath(path: string, names: seq<string>, i: nat, namePos: nat, end: nat)
      requires i < |names| && namePos <= end < |path| && path[end] == SEPARATOR && names[i] == path[namePos..end]
      requires if i == 0 then namePos == 0 else path[..namePos] == Join(names[..i]) + [SEPARATOR]
      ensures path[..end] == Join(names[..i + 1]) && path[..end + 1] == Join(names[..i + 1]) + [SEPARATOR]
    {
      assert path[..end] == path[..namePos] + path[namePos..end] && path[..end + 1] == path[..end] + [SEPARATOR];
      assert names[..i + 1] == names[..i] + [names[i]];
      if i > 0 {
        JoinOneMore(names[..i], names[i]);
      }
    }

    /** How far the names of a path have been followed. */
    ghost predicate Followed(names: seq<string>, ok: bool, parent: Inode?, thisName: string, thisInode: Inode?,
                             thisNameWithPath: string)
      requires Valid() && names != []
      reads this, nodes
    {
      var d := Depth(Children(), canonical, root, names[1..]);
      && (ok <==> d + 2 >= |names|)
      && (|names| == 1 ==> parent == null && thisInode == root)
      && (ok && |names| > 1 ==>
            && parent != null && Walk(Children(), canonical, root, names[1..|names| - 1]) == Some(parent)
            && thisName == names[|names| - 1]
            && thisInode == OrNull(Walk(Children(), canonical, root, names[1..])))
      && (!ok ==>
            && parent != null && Walk(Children(), canonical, root, names[1..d + 1]) == Some(parent)
            && thisName == names[d + 1] && thisNameWithPath == Join(names[..d + 2]))
      && (ok ==> thisNameWithPath == Join(names))
    }

    /** `resolve`. */
    method Resolve(path: string) returns (r: Inode?)
      requires Valid()
      ensures r == OrNull(Resolved(path))
    {
      hide Split, Strip, Join, Walk;
      var ok, parent, thisName, thisInode, thisNameWithPath := PathToInode(path);
      r := if ok then thisInode else null;
      assert Split(Strip(path))[1..|Split(Strip(path))|] == Split(Strip(path))[1..];
      RootByNoNames();
    }

    lemma RootByNoNames()
      requires Valid()
      ensures Walk(Children(), canonical, root, []) == Some(root)
    {
    }

    /** `children.insert` of a new inode under a name that is free. */
    method AddChild(parent: Inode, name: string, child: Inode)
      requires Valid() && parent in nodes && child !in nodes && child.children == map[]
      requires canonical(name) !in parent.children
      modifies this`nodes, parent`children
      ensures Valid() && nodes == old(nodes) + {child}
      ensures Children() == Grown(old(Children()), parent, canonical(name), child)
      ensures Extends(old(Children()), Children(), canonical, root)
    {
      hide Closed, Extends, Walk;
      ghost var before := Children();
      GrownIsClosed(before, parent, canonical(name), child);
      GrownExtends(before, canonical, parent, canonical(name), child, root);
      parent.children := parent.children[canonical(name) := child];
      nodes := nodes + {child};
      assert Children() == Grown(before, parent, canonical(name), child);
    }

    /** A new inode among the children of another. */
    method NewChild(parent: Inode, name: string, fullCanonicalPath: string, isDirectory: bool,
                    ghost start: Shape) returns (child: Inode)
      requires Valid() && parent in nodes && canonical(name) !in parent.children
      requires Extends(start, Children(), canonical, root)
      modifies this`nodes, parent`children
      ensures Valid() && fresh(child) && nodes == old(nodes) + {child}
      ensures child.fullCanonicalPath == fullCanonicalPath && child.isDirectory == isDirectory
      ensures child.children == map[]
      ensures Labels() == old(Labels())[child := Label(name, fullCanonicalPath, isDirectory)]
      ensures Children() == Grown(old(Children()), parent, canonical(name), child)
      ensures Extends(start, Children(), canonical, root)
    {
      hide Closed, Extends, Walk, Grown;
      ghost var shape := Children();
      child := new Inode(name, fullCanonicalPath, isDirectory);
      AddChild(parent, name, child);
      ExtendsTwice(start, shape, Children(), canonical, root);
    }

    /** How many ancestors of a path are missing. */
    ghost function Missing(names: seq<string>): nat
      requires Valid() && names != []
      reads this, nodes
    {
      var d := Depth(Children(), canonical, root, names[1..]);
      if d + 2 >= |names| then 0 else |names| - 2 - d
    }

    /** Where `pathToInode` fails, the name is free. */
    lemma {:induction false} MissingIsFree(names: seq<string>, parent: Inode?, thisName: string, thisInode: Inode?,
                                           thisNameWithPath: string)
      requires Valid() && names != [] && Followed(names, false, parent, thisName, thisInode, thisNameWithPath)
      ensures var d := Depth(Children(), canonical, root, names[1..]);
        && d + 2 < |names| && Walk(Children(), canonical, root, names[1..][..d]) == Some(parent)
        && parent in nodes && thisName == names[1..][d] && canonical(thisName) !in parent.children
    {
      var d := Depth(Children(), canonical, root, names[1..]);
      StopsAt(Children(), canonical, root, names[1..]);
      assert names[1..][..d] == names[1..d + 1];
    }

    /** Where only the last name is missing, it is free. */
    lemma {:induction false} LastIsFree(names: seq<string>, parent: Inode?, thisName: string, thisNameWithPath: string)
      requires Valid() && |names| > 1 && Followed(names, true, parent, thisName, null, thisNameWithPath)
      ensures var d := |names| - 2;
        && Walk(Children(), canonical, root, names[1..][..d]) == Some(parent)
        && parent in nodes && thisName == names[1..][d] && canonical(thisName) !in parent.children
    {
      assert names[1..] == names[1..|names| - 1] + [thisName] && names[1..][..|names| - 2] == names[1..|names| - 1];
      WalkOn(Children(), canonical, root, names[1..|names| - 1], [thisName]);
    }

    /** Creating the first missing name makes it and all before it resolve. */
    lemma {:induction false} OneMoreFound(names: seq<string>, before: Shape, parent: Inode, child: Inode, d: nat)
      requires Valid() && Closed(before) && root in before && parent in before && child !in before && d < |names|
      requires Walk(before, canonical, root, names[..d]) == Some(parent) && canonical(names[d]) !in before[parent]
      requires Children() == Grown(before, parent, canonical(names[d]), child)
      ensures Walk(Children(), canonical, root, names[..d + 1]) == Some(child)
      ensures Depth(Children(), canonical, root, names) == d + 1
    {
      DepthGrows(before, canonical, parent, child, root, names, d);
    }

    lemma {:induction false} NothingMissing(names: seq<string>, ok: bool, parent: Inode?, thisName: string,
                                            thisInode: Inode?,
                                            thisNameWithPath: string)
      requires Valid() && names != [] && Followed(names, ok, parent, thisName, thisInode, thisNameWithPath)
      ensures ok <==> Missing(names) == 0
    {
    }

    lemma {:induction false} FollowedFound(names: seq<string>, parent: Inode?, thisName: string, thisInode: Inode?,
                                           thisNameWithPath: string)
      requires Valid() && names != [] && Followed(names, true, parent, thisName, thisInode, thisNameWithPath)
      ensures thisInode != null ==>
        Walk(Children(), canonical, root, names[1..]) == Some(thisInode) && thisInode in nodes
      ensures thisInode == null ==> |names| > 1
    {
    }

    /** With an ancestor more, one fewer is missing, but not yet the last name found. */
    lemma {:induction false} OneLessMissing(names: seq<string>, before: Shape, parent: Inode, child: Inode)
      requires Valid() && names != [] && Closed(before) && root in before && parent in before && child !in before
      requires var d := Depth(before, canonical, root, names[1..]);
        && d + 2 < |names| && Walk(before, canonical, root, names[1..][..d]) == Some(parent)
        && canonical(names[1..][d]) !in before[parent]
        && Children() == Grown(before, parent, canonical(names[1..][d]), child)
      ensures Missing(names) + 3 + Depth(before, canonical, root, names[1..]) == |names|
      ensures Walk(Children(), canonical, root, names[1..]) == None
    {
      OneMoreFound(names[1..], before, parent, child, Depth(before, canonical, root, names[1..]));
    }

    lemma {:induction false} LastFound(names: seq<string>, before: Shape, parent: Inode, child: Inode)
      requires Valid() && |names| > 1 && Closed(before) && root in before && parent in before && child !in before
      requires var d := |names| - 2;
        && Walk(before, canonical, root, names[1..][..d]) == Some(parent) && canonical(names[1..][d]) !in before[parent]
        && Children() == Grown(before, parent, canonical(names[1..][d]), child)
      ensures Walk(Children(), canonical, root, names[1..]) == Some(child)
    {
      OneMoreFound(names[1..], before, parent, child, |names| - 2);
      assert names[1..][..|names| - 1] == names[1..];
    }

    lemma NoneNew(names: seq<string>)
      requires Valid()
      ensures NewOnes(names, nodes)
    {
      hide AllLabelled;
      NothingNew(Children(), Labels(), canonical, root, names);
      assert Children().Keys == nodes;
    }

    lemma MissingCount(names: seq<string>)
      requires Valid() && names != []
      ensures var d := Depth(Children(), canonical, root, names[1..]);
        d + 2 < |names| ==> Missing(names) + 2 + d == |names|
    {
    }

    /** `createInode`, for a path whose first name is empty: one retry for each missing ancestor. */
    method CreateInode(path: string) returns (inode: Inode, retries: nat)
      requires Valid() && Split(Strip(path))[0] == ""
      modifies this`nodes, nodes`children
      ensures Valid() && Extends(old(Children()), Children(), canonical, root)
      ensures Resolved(path) == Some(inode)
      ensures retries == old(Missing(Split(Strip(path))))
      ensures fresh(nodes - old(nodes)) && forall n :: n in nodes - old(nodes) - {inode} ==> n.isDirectory
      ensures inode !in old(nodes) ==> inode.fullCanonicalPath == Join(Split(Strip(path))) && inode.children == map[]
      ensures NewOnes(Split(Strip(path)), old(nodes))
    {
      ghost var names := Split(Strip(path));
      ghost var start := Children();
      hide Split, Strip, Join, Walk, Depth, Extends, Grown, Followed, Missing, NewOnes, Labels, Closed;
      var parent, thisName, thisInode, thisNameWithPath;
      parent, thisName, thisInode, thisNameWithPath, retries := CreateAncestors(path, names);
      FollowedFound(names, parent, thisName, thisInode, thisNameWithPath);
      if thisInode == null {
        thisInode := CreateLast(names, parent, thisName, thisNameWithPath, start, old(nodes));
      }
      inode := thisInode;
    }

    /** The loop of `createInode`. */
    method CreateAncestors(path: string, ghost names: seq<string>)
      returns (parent: Inode?, thisName: string, thisInode: Inode?, thisNameWithPath: string, retries: nat)
      requires Valid() && names == Split(Strip(path)) && names[0] == ""
      modifies this`nodes, nodes`children
      ensures Valid() && Followed(names, true, parent, thisName, thisInode, thisNameWithPath)
      ensures Extends(old(Children()), Children(), canonical, root) && NewOnes(names, old(nodes))
      ensures retries == old(Missing(names)) && (thisInode != null ==> nodes == old(nodes))
      ensures old(nodes) <= nodes && fresh(nodes - old(nodes)) && forall n :: n in nodes - old(nodes) ==> n.isDirectory
    {
      ghost var start := Children();
      hide Split, Strip, Join, Walk, Depth, Extends, Grown, Followed, Missing, NewOnes, Labels, Closed;
      ExtendsItself(start, canonical, root);
      NoneNew(names);
      retries := 0;
      var ok;
      ok, parent, thisName, thisInode, thisNameWithPath := PathToInode(path);
      NothingMissing(names, ok, parent, thisName, thisInode, thisNameWithPath);
      while !ok
        invariant Valid() && Followed(names, ok, parent, thisName, thisInode, thisNameWithPath)
        invariant Extends(start, Children(), canonical, root) && NewOnes(names, old(nodes))
        invariant old(nodes) <= nodes && fresh(nodes - old(nodes)) && forall n :: n in nodes - old(nodes) ==>
          n.isDirectory
        invariant retries + Missing(names) == old(Missing(names)) && (ok ==> Missing(names) == 0)
        invariant if retries == 0 then nodes == old(nodes) else Walk(Children(), canonical, root, names[1..]) == None
        decreases Missing(names)
      {
        CreateAncestor(names, parent, thisName, thisInode, thisNameWithPath, start, old(nodes));
        retries := retries + 1;
        ok, parent, thisName, thisInode, thisNameWithPath := PathToInode(path);
        NothingMissing(names, ok, parent, thisName, thisInode, thisNameWithPath);
      }
      FollowedFound(names, parent, thisName, thisInode, thisNameWithPath);
    }

    /** One turn of the loop of `createInode`. */
    method CreateAncestor(ghost names: seq<string>, parent: Inode?, thisName: string, ghost thisInode: Inode?,
                          thisNameWithPath: string, ghost start: Shape, ghost known: set<Inode>)
      requires Valid() && names != [] && Followed(names, false, parent, thisName, thisInode, thisNameWithPath)
      requires Extends(start, Children(), canonical, root) && NewOnes(names, known)
      modifies this`nodes, nodes`children
      ensures Valid() && Extends(start, Children(), canonical, root) && NewOnes(names, known)
      ensures old(nodes) <= nodes && fresh(nodes - old(nodes)) && forall n :: n in nodes - old(nodes) ==> n.isDirectory
      ensures Missing(names) + 1 == old(Missing(names)) && Walk(Children(), canonical, root, names[1..]) == None
    {
      ghost var shape := Children();
      ghost var d, labels := Depth(shape, canonical, root, names[1..]), Labels();
      MissingIsFree(names, parent, thisName, thisInode, thisNameWithPath);
      MissingCount(names);
      assert thisName == names[d + 1] && thisNameWithPath == Join(names[..d + 2]);
      hide Walk, Depth, Extends, Grown, Followed, Join, Closed, Missing, AllLabelled;
      var directoryInode := NewChild(parent, thisName, thisNameWithPath, true, start);
      OneLessMissing(names, shape, parent, directoryInode);
      StillLabelled(shape, labels, canonical, root, names, known, parent, directoryInode, d);
    }

    /** The end of `createInode`: the inode itself. */
    method CreateLast(ghost names: seq<string>, parent: Inode?, thisName: string, thisNameWithPath: string,
                      ghost start: Shape, ghost known: set<Inode>)
      returns (fileInode: Inode)
      requires Valid() && |names| > 1 && Followed(names, true, parent, thisName, null, thisNameWithPath)
      requires Extends(start, Children(), canonical, root) && NewOnes(names, known)
      modifies this`nodes, nodes`children
      ensures Valid() && Extends(start, Children(), canonical, root) && NewOnes(names, known)
      ensures fresh(fileInode) && nodes == old(nodes) + {fileInode}
      ensures !fileInode.isDirectory && fileInode.fullCanonicalPath == Join(names) && fileInode.children == map[]
      ensures Walk(Children(), canonical, root, names[1..]) == Some(fileInode)
    {
      ghost var shape, labels := Children(), Labels();
      LastIsFree(names, parent, thisName, thisNameWithPath);
      assert thisNameWithPath == Join(names) && names[..|names|] == names;
      hide Walk, Depth, Extends, Grown, Followed, Join, Closed, AllLabelled;
      fileInode := NewChild(parent, thisName, thisNameWithPath, false, start);
      LastFound(names, shape, parent, fileInode);
      StillLabelled(shape, labels, canonical, root, names, known, parent, fileInode, |names| - 2);
    }

    static ghost function OrNull(r: Option<Inode>): Inode? {
      match r case None => null case Some(n) => n
    }
  }
}
