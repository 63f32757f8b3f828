/** Writing an accepted archive into a new directory never collides and leaves exactly the archive.

    Source: scripts/navigation-linux-handoff-runtime-stage.py, the staging loop of `stage_runtime_archives`. */
module RuntimeTree {
  import opened Options
  import opened RuntimePaths
  import opened RuntimeStage
  import Texts

  datatype Node = Folder | File(content: Bytes, executable: bool)

  /** What the entries say stands at a path: a listed file, and a directory everywhere else. */
  function NodeAt(entries: map<string, Entry>, p: Path): Node {
    if p != [] && FileAt(entries, Join(p)) then File(entries[Join(p)].content.value, entries[Join(p)].executable)
        else Folder
  }

  /** The root, a listed name, or a directory above one. */
  predicate Implied(names: set<string>, p: Path) {
    p == [] || exists name :: name in names && name != "" && p <= Split(name)
  }

  /** The tree holds exactly the given names and what they imply, each as the entries say. */
  ghost predicate Staged(nodes: map<Path, Node>, entries: map<string, Entry>, names: set<string>) {
    forall p :: (p in nodes <==> Implied(names, p)) && (p in nodes ==> nodes[p] == NodeAt(entries, p))
  }

  /** No directory above the path, up to the given depth, is a file. */
  predicate Passable(nodes: map<Path, Node>, path: Path, depth: nat)
    requires depth <= |path|
  {
    forall d: nat :: d <= depth && path[..d] in nodes ==> nodes[path[..d]].Folder?
  }

  /** The tree after the directories down to the path have been made. */
  ghost predicate Grown(before: map<Path, Node>, path: Path, after: map<Path, Node>) {
    forall p :: (p in after <==> p in before || p <= path)
                && (p in after ==> after[p] == if p in before then before[p] else Folder)
  }

  lemma GrownStep(before: map<Path, Node>, above: Path, next: Path, middle: map<Path, Node>, after: map<Path, Node>)
    requires next != [] && above == next[..|next| - 1] && Grown(before, above, middle)
    requires after == if next in middle then middle else middle[next := Folder]
    ensures Grown(before, next, after)
  {
    forall p ensures (p in after <==> p in before || p <= next)
                     && (p in after ==> after[p] == if p in before then before[p] else Folder) {
      assert p <= next <==> p <= above || p == next;
    }
  }

  class Tree {
    var nodes: map<Path, Node>

    constructor ()
      ensures nodes == map[[] := Folder]
    {
      nodes := map[[] := Folder];
    }

    /** `mkdir` with `exist_ok`. */
    method Mkdir(path: Path) returns (ok: bool)
      modifies this
      ensures ok <==> if path in old(nodes) then old(nodes)[path].Folder?
                      else path != [] && path[..|path| - 1] in old(nodes) && old(nodes)[path[..|path| - 1]].Folder?
      ensures nodes == if ok && path !in old(nodes) then old(nodes)[path := Folder] else old(nodes)
    {
      if path in nodes {
        return nodes[path].Folder?;
      }
      if path == [] || path[..|path| - 1] !in nodes || !nodes[path[..|path| - 1]].Folder? {
        return false;
      }
      nodes := nodes[path := Folder];
      return true;
    }

    /** `mkdir` with `parents` and `exist_ok`, from the root down. */
    method MkdirParents(path: Path) returns (ok: bool)
      requires [] in nodes && nodes[[]].Folder?
      modifies this
      ensures ok <==> Passable(old(nodes), path, |path|)
      ensures ok ==> Grown(old(nodes), path, nodes) && path in nodes && nodes[path].Folder?
      ensures [] in nodes && nodes[[]].Folder?
    {
      for depth := 0 to |path|
        invariant Grown(old(nodes), path[..depth], nodes) && Passable(old(nodes), path, depth)
      {
        var next := path[..depth + 1];
        assert next[..depth] == path[..depth];
        ghost var middle := nodes;
        var made := Mkdir(next);
        if !made {
          return false;
        }
        GrownStep(old(nodes), path[..depth], next, middle, nodes);
      }
      assert path[..|path|] == path;
      return true;
    }

    /** An exclusive `open` for writing, and what is written. */
    method Create(path: Path, content: Bytes, executable: bool) returns (ok: bool)
      modifies this
      ensures ok <==> path !in old(nodes) && path != [] && path[..|path| - 1] in old(nodes)
                      && old(nodes)[path[..|path| - 1]].Folder?
      ensures nodes == if ok then old(nodes)[path := File(content, executable)] else old(nodes)
    {
      ok := path !in nodes && path != [] && path[..|path| - 1] in nodes && nodes[path[..|path| - 1]].Folder?;
      if ok {
        nodes := nodes[path := File(content, executable)];
      }
    }
  }

  // ----- one entry -----

  lemma AncestorsAreFolders(entries: map<string, Entry>, name: string, d: nat)
    requires NoFileAbove(entries, name) && d < |Split(name)|
    ensures NodeAt(entries, Split(name)[..d]) == Folder
  {
    if d > 0 {
      assert Ancestor(name, d) == Join(Split(name)[..d]);
    }
  }

  /** Before an entry is written nothing is in its way: no file above it, and at its own place at most a directory
      that another name implies, and then the entry is a directory. */
  lemma WayIsClear(nodes: map<Path, Node>, entries: map<string, Entry>, names: set<string>, name: string)
    requires Accepted(entries) && Staged(nodes, entries, names) && names <= entries.Keys
    requires name in entries && name !in names && name != ""
    ensures Passable(nodes, Split(name)[..|Split(name)| - 1], |Split(name)| - 1)
    ensures Split(name) in nodes ==> entries[name].content.None? && nodes[Split(name)].Folder?
  {
    var parts := Split(name);
    Texts.JoinSplit(name, '/');
    var above := parts[..|parts| - 1];
    assert NoFileAbove(entries, name);
    hide NoFileAbove, Accepted, Implied;
    forall d: nat | d <= |above| && above[..d] in nodes ensures nodes[above[..d]].Folder? {
      assert above[..d] == parts[..d];
      AncestorsAreFolders(entries, name, d);
    }
    if parts in nodes {
      assert Implied(names, parts);
      OnlyAbove(entries, names, name);
      assert nodes[parts] == NodeAt(entries, parts);
    }
  }

  /** An entry implied by other names is a directory. */
  lemma OnlyAbove(entries: map<string, Entry>, names: set<string>, name: string)
    requires Accepted(entries) && names <= entries.Keys && name in entries && name !in names
        && Implied(names, Split(name))
    ensures entries[name].content.None?
  {
    Texts.JoinSplit(name, '/');
    var parts := Split(name);
    var other :| other in names && other != "" && parts <= Split(other);
    Texts.JoinSplit(other, '/');
    assert NoFileAbove(entries, other);
    var d := |parts|;
    assert Split(other) != parts;
    assert parts == Split(other)[..d] && d < |Split(other)|;
    assert Ancestor(other, d) == name;
  }

  /** Making the directories above an entry and then the entry itself adds exactly its name. */
  lemma EntryAdds(before: map<Path, Node>, middle: map<Path, Node>, after: map<Path, Node>, entries: map<string, Entry>,
                  names: set<string>, name: string)
    requires Accepted(entries) && Staged(before, entries, names) && name in entries && name != ""
    requires var parts := Split(name); Grown(before, parts[..|parts| - 1], middle)
    requires after == middle[Split(name) := NodeAt(entries, Split(name))]
    ensures Staged(after, entries, names + {name})
  {
    var parts := Split(name);
    var above := parts[..|parts| - 1];
    assert NoFileAbove(entries, name);
    forall p: Path
        ensures (p in after <==> Implied(names + {name}, p)) && (p in after ==> after[p] == NodeAt(entries, p)) {
      assert p <= parts <==> p <= above || p == parts;
      ImpliedGrows(names, name, p);
      if p <= above && p !in before {
        assert p == parts[..|p|];
        AncestorsAreFolders(entries, name, |p|);
      }
    }
  }

  lemma ImpliedGrows(names: set<string>, name: string, p: Path)
    requires name != ""
    ensures Implied(names + {name}, p) <==> Implied(names, p) || p <= Split(name)
  {
    if p <= Split(name) {
      assert name in names + {name};
    }
    if Implied(names, p) && p != [] {
      var other :| other in names && other != "" && p <= Split(other);
      assert other in names + {name};
    }
  }

  lemma NotYetMade(before: map<Path, Node>, path: Path, middle: map<Path, Node>)
    requires path != [] && Grown(before, path[..|path| - 1], middle)
    ensures if path in before then path in middle && middle[path] == before[path] else path !in middle
  {
  }

  /** The path of an accepted name resolves to itself. */
  lemma EntryPlace(entries: map<string, Entry>, name: string)
    requires Accepted(entries) && name in entries && name != ""
    ensures Resolve(Split(name)) == Some(Split(name)) && Split(name) != []
    ensures NodeAt(entries, Split(name)) == match entries[name].content
                                            case None => Folder
                                            case Some(content) => File(content, entries[name].executable)
  {
    Texts.JoinSplit(name, '/');
    PlainResolves(Split(name));
  }

  /** The body of the loop. */
  method StageEntry(tree: Tree, entries: map<string, Entry>, ghost names: set<string>, name: string) returns (ok: bool)
    requires name in entries && name !in names && name != "" && names <= entries.Keys
    requires Accepted(entries) ==> Staged(tree.nodes, entries, names)
    requires [] in tree.nodes && tree.nodes[[]].Folder?
    modifies tree
    ensures Accepted(entries) ==> ok && Staged(tree.nodes, entries, names + {name})
    ensures [] in tree.nodes && tree.nodes[[]].Folder?
  {
    hide Accepted, Staged, Resolve, Split, Grown, Passable;
    var place := Resolve(Split(name));
    if Accepted(entries) {
      EntryPlace(entries, name);
      WayIsClear(tree.nodes, entries, names, name);
    }
    Texts.JoinSplit(name, '/');
    if place.None? || place.value == [] {
      return false;
    }
    var path := place.value;
    ghost var before := tree.nodes;
    var above := tree.MkdirParents(path[..|path| - 1]);
    if !above {
      return false;
    }
    ghost var middle := tree.nodes;
    NotYetMade(before, path, middle);
    if entries[name].content.None? {
      ok := tree.Mkdir(path);
    } else {
      ok := tree.Create(path, entries[name].content.value, entries[name].executable);
    }
    if Accepted(entries) {
      EntryAdds(before, middle, tree.nodes, entries, names, name);
    }
  }

  ghost predicate Enumerates(order: seq<string>, entries: map<string, Entry>) {
    && (forall name :: name in order <==> name in entries)
    && forall i, j :: 0 <= i < j < |order| ==> order[i] != order[j]
  }

  /** The staging loop, in whatever order the entries come; the program sorts them by depth. An accepted archive is
      always written in full. */
  method Stage(entries: map<string, Entry>, order: seq<string>) returns (ok: bool, tree: Tree)
    requires Enumerates(order, entries)
    ensures Accepted(entries) ==> ok && Staged(tree.nodes, entries, entries.Keys)
    ensures fresh(tree)
  {
    tree := new Tree();
    ghost var names: set<string> := {};
    StagedEmpty(entries);
    hide Staged, Accepted;
    for n := 0 to |order|
      invariant names == set name | name in order[..n] && name != ""
      invariant Accepted(entries) ==> Staged(tree.nodes, entries, names)
      invariant [] in tree.nodes && tree.nodes[[]].Folder?
      invariant fresh(tree)
    {
      var name := order[n];
      assert order[..n + 1] == order[..n] + [name];
      if name == "" {
        continue;
      }
      ok := StageEntry(tree, entries, names, name);
      if !ok {
        return;
      }
      names := names + {name};
    }
    assert order[..|order|] == order;
    assert names == entries.Keys - {""};
    StagedRoot(tree.nodes, entries, names);
    ok := true;
  }

  lemma StagedEmpty(entries: map<string, Entry>)
    ensures Staged(map[[] := Folder], entries, {})
  {
  }

  lemma StagedRoot(nodes: map<Path, Node>, entries: map<string, Entry>, names: set<string>)
    requires names == entries.Keys - {""}
    ensures Staged(nodes, entries, names) <==> Staged(nodes, entries, entries.Keys)
  {
    forall p ensures Implied(names, p) <==> Implied(entries.Keys, p) {
      if Implied(entries.Keys, p) && p != [] {
        var name :| name in entries.Keys && name != "" && p <= Split(name);
        assert name in names;
      }
    }
  }

  /** What a staged tree holds, read entry by entry and node by node: every listed file with its bytes, every listed
      directory, and no file that is not listed. */
  lemma StagedExactly(nodes: map<Path, Node>, entries: map<string, Entry>)
    requires Staged(nodes, entries, entries.Keys)
    ensures forall name :: name in entries && name != "" ==>
      && Split(name) in nodes
      && nodes[Split(name)] == match entries[name].content
                               case None => Folder
                               case Some(content) => File(content, entries[name].executable)
    ensures forall p :: p in nodes && nodes[p].File? ==> p != [] && FileAt(entries, Join(p)) && Split(Join(p)) == p
  {
    forall name | name in entries && name != ""
      ensures Split(name) in nodes && nodes[Split(name)] == NodeAt(entries, Split(name)) && Join(Split(name)) == name {
      Texts.JoinSplit(name, '/');
      assert Implied(entries.Keys, Split(name));
      hide Split, Join, NodeAt;
    }
    forall p | p in nodes && nodes[p].File? ensures p != [] && FileAt(entries, Join(p)) && Split(Join(p)) == p {
      FilesAreListed(nodes, entries, p);
    }
    hide Staged, Split, Join;
  }

  lemma FilesAreListed(nodes: map<Path, Node>, entries: map<string, Entry>, p: Path)
    requires Staged(nodes, entries, entries.Keys) && p in nodes && nodes[p].File?
    ensures p != [] && FileAt(entries, Join(p)) && Split(Join(p)) == p
  {
    assert Implied(entries.Keys, p);
    var name :| name in entries && name != "" && p <= Split(name);
    Texts.SplitJoin(p, '/');
  }
}
