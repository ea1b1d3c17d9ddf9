/** The table of open inodes with its reference counts, and the walk along a path that opens
    the parent directory of its last element. */
module OpenInodes {
  import opened Options
  import opened PathWalk
  import opened Strings

  const INODE_NUM := 128

  datatype Kind = NoKind | FileKind | DirKind | DevKind

  /** What the disk says of an inode: a directory maps names to inodes. */
  datatype Node = Node(kind: Kind, entries: map<string, nat>)

  datatype Slot = Slot(no: nat, ref: nat, del: bool, kind: Kind)

  /** The inodes on the disk, which a walk only reads. */
  datatype Tree = Tree(root: nat, nodes: map<nat, Node>)

  function KindOf(t: Tree, no: nat): Kind {
    if no in t.nodes then t.nodes[no].kind else NoKind
  }

  function Lookup(t: Tree, dir: nat, name: string): Option<nat> {
    if dir in t.nodes && name in t.nodes[dir].entries then Some(t.nodes[dir].entries[name]) else None
  }

  /** The directory where all elements but the last lead, each cut to the length of a name. */
  function Parent(t: Tree, dir: nat, elements: seq<string>): Option<nat>
    decreases |elements|
  {
    if elements == [] || KindOf(t, dir) != DirKind then None
    else if |elements| == 1 then Some(dir)
    else
      var next := Lookup(t, dir, Cut(elements[0]));
      if next.Some? then Parent(t, next.value, elements[1..]) else None
  }

  /** Where a list of names leads: each is looked up in the directory that those before it
      lead to. */
  function Reach(t: Tree, dir: nat, names: seq<string>): Option<nat> {
    if names == [] then Some(dir)
    else
      var d := Reach(t, dir, names[..|names| - 1]);
      if d.Some? && KindOf(t, d.value) == DirKind then Lookup(t, d.value, Cut(names[|names| - 1])) else None
  }

  lemma {:induction false} ReachFront(t: Tree, dir: nat, names: seq<string>)
    requires names != []
    ensures var next := Lookup(t, dir, Cut(names[0]));
            Reach(t, dir, names) ==
            if KindOf(t, dir) == DirKind && next.Some? then Reach(t, next.value, names[1..]) else None
  {
    var init := names[..|names| - 1];
    if init == [] {
      assert names[1..] == [];
    } else {
      ReachFront(t, dir, init);
      assert names[1..][..|names[1..]| - 1] == init[1..];
    }
  }

  /** The walk finds the directory that all elements but the last lead to, and fails exactly
      if there is no last element or they do not lead to a directory. */
  lemma {:induction false} ParentIsReach(t: Tree, dir: nat, elements: seq<string>)
    requires elements != []
    ensures var d := Reach(t, dir, elements[..|elements| - 1]);
            Parent(t, dir, elements) == if d.Some? && KindOf(t, d.value) == DirKind then d else None
    decreases |elements|
  {
    var init := elements[..|elements| - 1];
    if init != [] {
      ReachFront(t, dir, init);
      var next := Lookup(t, dir, Cut(elements[0]));
      if next.Some? {
        ParentIsReach(t, next.value, elements[1..]);
        assert elements[1..][..|elements[1..]| - 1] == init[1..];
      }
    }
  }

  // ----- the references that are held -----

  function RefOf(s: Slot, no: nat): nat {
    if s.no == no then s.ref else 0
  }

  /** How many references there are to an inode. */
  function RefsTo(slots: seq<Slot>, no: nat): nat {
    if slots == [] then 0 else RefsTo(slots[..|slots| - 1], no) + RefOf(slots[|slots| - 1], no)
  }

  /** How many references there are in all. */
  function Total(slots: seq<Slot>): nat {
    if slots == [] then 0 else Total(slots[..|slots| - 1]) + slots[|slots| - 1].ref
  }

  /** n references more to one inode, and none more or less to any other. */
  ghost predicate Gained(was: seq<Slot>, now: seq<Slot>, no: nat, n: int) {
    Total(now) == Total(was) + n && forall k :: RefsTo(now, k) == RefsTo(was, k) + if k == no then n else 0
  }

  ghost predicate SameRefs(was: seq<Slot>, now: seq<Slot>) {
    Total(now) == Total(was) && forall k :: RefsTo(now, k) == RefsTo(was, k)
  }

  lemma {:induction false} RefsUpdate(slots: seq<Slot>, i: nat, s: Slot, k: nat)
    requires i < |slots|
    ensures RefsTo(slots[i := s], k) == RefsTo(slots, k) - RefOf(slots[i], k) + RefOf(s, k)
    ensures Total(slots[i := s]) == Total(slots) - slots[i].ref + s.ref
  {
    var n := |slots| - 1;
    if i < n {
      RefsUpdate(slots[..n], i, s, k);
      assert slots[i := s][..n] == slots[..n][i := s];
    } else {
      assert slots[i := s][..n] == slots[..n];
    }
  }

  /** A slot keeps its inode, or was empty. */
  lemma RefsStep(slots: seq<Slot>, i: nat, s: Slot)
    requires i < |slots| && (s.no == slots[i].no || slots[i].ref == 0)
    ensures Gained(slots, slots[i := s], s.no, s.ref - slots[i].ref)
  {
    forall k
      ensures RefsTo(slots[i := s], k) == RefsTo(slots, k) + if k == s.no then s.ref - slots[i].ref else 0
    {
      RefsUpdate(slots, i, s, k);
    }
    RefsUpdate(slots, i, s, 0);
  }

  // ----- the table -----

  datatype Result = Found(i: nat) | Missing | Panic

  class InodeTable {
    const tree: Tree
    const slots: array<Slot>
    /** The inodes given back to the disk so far. */
    var freed: seq<nat>

    ghost predicate Valid()
      reads slots
    {
      && slots.Length == INODE_NUM
      && forall i :: 0 <= i < INODE_NUM ==> slots[i].ref > 0 ==> slots[i].kind == KindOf(tree, slots[i].no)
    }

    /** The slot of an inode that one more reference was taken to. */
    static predicate Taken(was: Slot, now: Slot, no: nat) {
      now.no == no && now.ref == was.ref + 1 && if was.ref > 0 then was.no == no && now.del == was.del else !now.del
    }

    /** The contract of iget: another reference to inode no, in its slot or in an empty one. */
    method IGet(no: nat) returns (r: Result)
      requires Valid()
      modifies slots
      ensures Valid() && !r.Missing?
      ensures r.Found? ==> r.i < INODE_NUM && Taken(old(slots[..])[r.i], slots[r.i], no)
      ensures r.Found? ==> slots[..] == old(slots[..])[r.i := slots[r.i]] && Gained(old(slots[..]), slots[..], no, 1)
      ensures r.Panic? ==>
                slots[..] == old(slots[..]) && forall j :: 0 <= j < INODE_NUM ==> slots[j].ref > 0 && slots[j].no != no
    {
      var empty: Option<nat> := None;
      for j := 0 to INODE_NUM
        invariant forall k :: 0 <= k < j ==> slots[k].ref == 0 || slots[k].no != no
        invariant empty.Some? ==> empty.value < INODE_NUM && slots[empty.value].ref == 0
        invariant empty.None? ==> forall k :: 0 <= k < j ==> slots[k].ref > 0
      {
        if slots[j].ref > 0 && slots[j].no == no {
          IDup(j);
          return Found(j);
        }
        if slots[j].ref == 0 && empty.None? {
          empty := Some(j);
        }
      }
      if empty.None? {
        return Panic;
      }
      Put(empty.value, Slot(no, 1, false, KindOf(tree, no)));
      r := Found(empty.value);
    }

    method Put(i: nat, s: Slot)
      requires Valid() && i < INODE_NUM && (s.no == slots[i].no || slots[i].ref == 0) && s.kind == KindOf(tree, s.no)
      modifies slots
      ensures Valid() && slots[..] == old(slots[..])[i := s]
      ensures Gained(old(slots[..]), slots[..], s.no, s.ref - old(slots[i].ref))
    {
      ghost var was := slots[..];
      RefsStep(was, i, s);
      slots[i] := s;
      assert slots[..] == was[i := s];
    }

    method IDup(i: nat)
      requires Valid() && i < INODE_NUM && slots[i].ref > 0
      modifies slots
      ensures Valid() && slots[..] == old(slots[..])[i := slots[i]] && Taken(old(slots[i]), slots[i], old(slots[i].no))
      ensures Gained(old(slots[..]), slots[..], slots[i].no, 1)
    {
      Put(i, slots[i].(ref := slots[i].ref + 1));
    }

    /** Gives a reference back; with the last one an inode that was removed is freed. */
    method IClose(i: nat)
      requires Valid() && i < INODE_NUM && slots[i].ref > 0
      modifies this, slots
      ensures Valid() && slots[..] == old(slots[..])[i := slots[i]]
      ensures slots[i] == old(slots[i]).(ref := old(slots[i].ref) - 1)
      ensures Gained(old(slots[..]), slots[..], slots[i].no, -1)
      ensures freed == if old(slots[i].ref) == 1 && old(slots[i].del) then old(freed) + [old(slots[i].no)] else old(freed)
    {
      if slots[i].ref == 1 && slots[i].del {
        freed := freed + [slots[i].no];
      }
      Put(i, slots[i].(ref := slots[i].ref - 1));
    }

    /** The contract of ilookup without creation: a reference to the inode with the name, if
        the directory has one. */
    method ILookup(dir: nat, name: string) returns (r: Result)
      requires Valid() && dir < INODE_NUM && slots[dir].ref > 0 && slots[dir].kind == DirKind
      modifies slots
      ensures Valid()
      ensures r.Missing? <==> Lookup(tree, old(slots[dir].no), name) == None
      ensures !r.Found? ==> slots[..] == old(slots[..])
      ensures r.Found? ==>
        && r.i < INODE_NUM && Lookup(tree, old(slots[dir].no), name) == Some(slots[r.i].no)
        && Taken(old(slots[..])[r.i], slots[r.i], slots[r.i].no)
        && slots[..] == old(slots[..])[r.i := slots[r.i]] && Gained(old(slots[..]), slots[..], slots[r.i].no, 1)
      ensures r.Panic? ==> forall j :: 0 <= j < INODE_NUM ==> slots[j].ref > 0
    {
      var no := Lookup(tree, slots[dir].no, name);
      if no.None? {
        return Missing;
      }
      r := IGet(no.value);
    }

    /** The slot where a walk stands: closing it frees nothing. */
    ghost predicate Standing(i: nat)
      reads slots
    {
      i < slots.Length && slots[i].ref > 0 && (slots[i].ref > 1 || !slots[i].del)
    }

    /** What a walk has done to the table when it is over. */
    ghost predicate Walked(was: seq<Slot>, r: Result, parent: Option<nat>)
      reads slots
    {
      match r
      case Found(i) =>
        && i < slots.Length && slots[i].ref > 0
        && parent == Some(slots[i].no) && Gained(was, slots[..], slots[i].no, 1)
      case Missing => parent == None && SameRefs(was, slots[..])
      case Panic => forall j :: 0 <= j < slots.Length ==> slots[j].ref > 0
    }

    /** Opens the directory that holds the last element of the path. It gains one reference,
        and nothing else does; if there is no such directory no inode gains or loses any. */
    method IOpenParent(path: string, cwd: nat, name: array<char>) returns (r: Result)
      requires Valid() && cwd < INODE_NUM && slots[cwd].ref > 0 && '\0' !in path && name.Length == MAX_NAME + 1
      modifies this, slots, name
      ensures Valid() && freed == old(freed)
      ensures var start := if CharAt(path, 0) == '/' then tree.root else old(slots[cwd].no);
              Walked(old(slots[..]), r, Parent(tree, start, PathElements(path)))
      ensures r.Found? ==> PathElements(path) != [] && Stores(name[..], Last(PathElements(path)))
    {
      ghost var was := slots[..];
      var ip: nat;
      if CharAt(path, 0) == '/' {
        var root := IGet(tree.root);
        if root.Panic? {
          return Panic;
        }
        ip := root.i;
      } else {
        IDup(cwd);
        ip := cwd;
      }
      r := Walk(path, ip, name, was);
    }

    method Walk(path: string, start: nat, name: array<char>, ghost was: seq<Slot>) returns (r: Result)
      requires Valid() && Standing(start) && Gained(was, slots[..], slots[start].no, 1)
      requires '\0' !in path && name.Length == MAX_NAME + 1
      modifies this, slots, name
      ensures Valid() && freed == old(freed)
      ensures Walked(was, r, Parent(tree, old(slots[start].no), PathElements(path)))
      ensures r.Found? ==> PathElements(path) != [] && Stores(name[..], Last(PathElements(path)))
    {
      var ip, p := start, 0;
      ghost var all, left := PathElements(path), PathElements(path);
      ghost var parent := Parent(tree, slots[start].no, all);
      assert path[0..] == path;
      while true
        invariant Valid() && freed == old(freed) && p <= |path| && left == PathElements(path[p..])
        invariant Standing(ip) && Gained(was, slots[..], slots[ip].no, 1)
        invariant parent == Parent(tree, slots[ip].no, left)
        invariant left != [] ==> all != [] && Last(left) == Last(all)
        decreases |path| - p
      {
        var next := SkipElem(path, p, name);
        if next.None? {
          break;
        }
        p := next.value;
        if slots[ip].kind != DirKind {
          break;
        }
        if p == |path| {
          return Found(ip);
        }
        assert left[1..] == PathElements(path[p..]);
        var child := Descend(ip, name, Cut(left[0]), was);
        if !child.Found? {
          return child;
        }
        ip := child.i;
        left := left[1..];
      }
      GiveUp(ip, was);
      r := Missing;
    }

    /** A walk that fails gives the reference back that it holds. */
    method GiveUp(ip: nat, ghost was: seq<Slot>)
      requires Valid() && Standing(ip) && Gained(was, slots[..], slots[ip].no, 1)
      modifies this, slots
      ensures Valid() && freed == old(freed) && SameRefs(was, slots[..])
    {
      IClose(ip);
    }

    /** From a directory to the inode that the name in the buffer leads to. */
    method Descend(ip: nat, buf: array<char>, ghost name: string, ghost was: seq<Slot>) returns (r: Result)
      requires Valid() && Standing(ip) && slots[ip].kind == DirKind && HoldsName(buf[..], name) && '\0' !in name
      requires Gained(was, slots[..], slots[ip].no, 1)
      modifies this, slots
      ensures Valid() && freed == old(freed)
      ensures r.Missing? <==> Lookup(tree, old(slots[ip].no), name) == None
      ensures r.Missing? ==> SameRefs(was, slots[..])
      ensures r.Found? ==>
        && Standing(r.i) && Lookup(tree, old(slots[ip].no), name) == Some(slots[r.i].no)
        && Gained(was, slots[..], slots[r.i].no, 1)
      ensures r.Panic? ==> forall j :: 0 <= j < INODE_NUM ==> slots[j].ref > 0
    {
      var text := CText(buf);
      assert text == name;
      r := ILookup(ip, text);
      if !r.Panic? {
        ghost var before := slots[..];
        IClose(ip);
        assert r.Found? && r.i != ip ==> slots[r.i] == before[r.i];
      }
    }
  }

  function Last(w: seq<string>): string
    requires w != []
  {
    w[|w| - 1]
  }
}
