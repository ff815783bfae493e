/** A directory tree as a WebHDFS server holds it, what a full listing of it must return, and the
    lemmas that let the worklist of `list` account for a directory by its subdirectories. */
module HdfsTree {
  import opened Basics
  import opened HdfsPath

  datatype Kind = DirectoryKind | FileKind | OtherKind

  /** One FileStatus of a LISTSTATUS answer. */
  datatype Status = Status(suffix: Bytes, kind: Kind)

  datatype Node = Directory(children: seq<Entry>) | File | Other

  datatype Entry = Entry(name: Bytes, node: Node)

  function KindOf(node: Node): Kind {
    match node
    case Directory(_) => DirectoryKind
    case File => FileKind
    case Other => OtherKind
  }

  function Statuses(entries: seq<Entry>): (r: seq<Status>) {
    seq(|entries|, i requires 0 <= i < |entries| => Status(entries[i].name, KindOf(entries[i].node)))
  }

  function Last<T>(s: seq<T>): T
    requires s != []
  {
    s[|s| - 1]
  }

  function Front<T>(s: seq<T>): seq<T>
    requires s != []
  {
    s[..|s| - 1]
  }

  /** The path of a child, as `list` builds it. */
  function Child(dir: Bytes, name: Bytes): Bytes {
    if dir == [] then name else dir + [SLASH] + name
  }

  ghost predicate DistinctNames(entries: seq<Entry>) {
    forall i, j | 0 <= i < j < |entries| :: entries[i].name != entries[j].name
  }

  /** Names are single path segments, different within a directory. */
  ghost predicate WellFormed(entries: seq<Entry>)
    decreases entries
  {
    && DistinctNames(entries)
    && forall i | 0 <= i < |entries| ::
         && ValidChildName(entries[i].name)
         && (entries[i].node.Directory? ==> WellFormed(entries[i].node.children))
  }

  // ---- what is in a tree ------------------------------------------------------------------------------------

  /** How many entries a full listing sees. */
  ghost function Size(entries: seq<Entry>): nat
    decreases entries
  {
    if entries == [] then 0
    else Size(Front(entries)) + 1 + if Last(entries).node.Directory? then Size(Last(entries).node.children) else 0
  }

  ghost function FileHere(name: Bytes, dir: Bytes, prefix: Bytes): multiset<Bytes> {
    if prefix <= Child(dir, name) then multiset{Child(dir, name)} else multiset{}
  }

  /** The files under `dir` with the prefix, with multiplicity. */
  ghost function FilesIn(entries: seq<Entry>, dir: Bytes, prefix: Bytes): multiset<Bytes>
    decreases entries
  {
    if entries == [] then multiset{}
    else
      FilesIn(Front(entries), dir, prefix) + FilesAt(Last(entries), dir, prefix)
  }

  ghost function FilesAt(entry: Entry, dir: Bytes, prefix: Bytes): multiset<Bytes>
    decreases entry
  {
    match entry.node
    case File => FileHere(entry.name, dir, prefix)
    case Directory(children) => FilesIn(children, Child(dir, entry.name), prefix)
    case Other => multiset{}
  }

  /** What a path names. */
  ghost function Find(node: Node, path: seq<Bytes>): Option<Node>
    decreases |path|, 1, 0
  {
    if path == [] then Some(node)
    else if node.Directory? then FindIn(node.children, path)
    else None
  }

  ghost function FindIn(entries: seq<Entry>, path: seq<Bytes>): Option<Node>
    requires path != []
    decreases |path|, 0, |entries|
  {
    if entries == [] then None
    else if Last(entries).name == path[0] then Find(Last(entries).node, path[1..])
    else FindIn(Front(entries), path)
  }

  // ---- paths ------------------------------------------------------------------------------------------------

  ghost predicate Names(path: seq<Bytes>) {
    forall i | 0 <= i < |path| :: ValidChildName(path[i])
  }

  lemma {:induction false} JoinSnoc(path: seq<Bytes>, name: Bytes)
    requires Names(path)
    ensures Join(path + [name]) == Child(Join(path), name)
    ensures path != [] ==> Join(path) != []
    decreases |path|
  {
    if path == [] {
      assert path + [name] == [name];
    } else {
      assert (path + [name])[1..] == path[1..] + [name];
      JoinSnoc(path[1..], name);
    }
  }

  lemma JoinNothing()
    ensures Join([]) == []
  {
  }

  lemma JoinIsInjective(a: seq<Bytes>, b: seq<Bytes>)
    requires a != [] && b != []
    requires forall i | 0 <= i < |a| :: Plain(a[i])
    requires forall i | 0 <= i < |b| :: Plain(b[i])
    ensures Join(a) == Join(b) <==> a == b
  {
    hide Split, Join, Plain;
    SplitJoin(a);
    SplitJoin(b);
  }

  // ---- each file exactly once -------------------------------------------------------------------------------

  /** 1 where `path` names a wanted file below `dir`, 0 elsewhere. */
  ghost function Wanted(entries: seq<Entry>, dir: seq<Bytes>, prefix: Bytes, path: seq<Bytes>): nat {
    if |dir| < |path| && dir <= path && prefix <= Join(path) && FindIn(entries, path[|dir|..]) == Some(File)
        then 1 else 0
  }

  lemma FoundNowhere(entries: seq<Entry>, path: seq<Bytes>)
    requires path != [] && forall i | 0 <= i < |entries| :: entries[i].name != path[0]
    ensures FindIn(entries, path) == None
    decreases |entries|
  {
    if entries != [] {
      FoundNowhere(Front(entries), path);
    }
  }

  lemma FileOnce(name: Bytes, dir: seq<Bytes>, prefix: Bytes, path: seq<Bytes>)
    requires Names(dir) && ValidChildName(name)
    requires path != [] && forall i | 0 <= i < |path| :: Plain(path[i])
    ensures FileHere(name, Join(dir), prefix)[Join(path)]
         == if path == dir + [name] && prefix <= Join(path) then 1 else 0
  {
    hide Join;
    JoinSnoc(dir, name);
    JoinIsInjective(dir + [name], path);
  }

  lemma PathStep(dir: seq<Bytes>, name: Bytes, path: seq<Bytes>)
    requires |dir| < |path| && dir <= path && path[|dir|] == name
    ensures dir + [name] <= path
    ensures path[|dir|..][1..] == path[|dir + [name]|..]
    ensures path == dir + [name] <==> path[|dir|..][1..] == []
  {
    assert dir == path[..|dir|];
    assert path[..|dir| + 1] == dir + [name];
    assert path[..|path|] == path;
  }

  lemma {:induction false} OnceAt(entry: Entry, dir: seq<Bytes>, prefix: Bytes, path: seq<Bytes>)
    requires Names(dir) && ValidChildName(entry.name)
    requires entry.node.Directory? ==> WellFormed(entry.node.children)
    requires path != [] && forall i | 0 <= i < |path| :: Plain(path[i])
    ensures FilesAt(entry, Join(dir), prefix)[Join(path)]
         == if |dir| < |path| && dir <= path && prefix <= Join(path) && path[|dir|] == entry.name
               && Find(entry.node, path[|dir|..][1..]) == Some(File) then 1 else 0
    decreases entry, 1
  {
    hide Join, WellFormed, ValidChildName, FileHere, Plain;
    if |dir| < |path| && dir <= path && path[|dir|] == entry.name {
      PathStep(dir, entry.name, path);
    }
    match entry.node
    case File =>
      FileOnce(entry.name, dir, prefix, path);
    case Directory(children) =>
      JoinSnoc(dir, entry.name);
      OnceIn(children, dir + [entry.name], prefix, path);
      if dir + [entry.name] <= path {
        assert path[|dir|] == (dir + [entry.name])[|dir|];
      }
    case Other =>
  }

  lemma {:induction false} OnceIn(entries: seq<Entry>, dir: seq<Bytes>, prefix: Bytes, path: seq<Bytes>)
    requires Names(dir) && WellFormed(entries)
    requires path != [] && forall i | 0 <= i < |path| :: Plain(path[i])
    ensures FilesIn(entries, Join(dir), prefix)[Join(path)] == Wanted(entries, dir, prefix, path)
    decreases entries, 0
  {
    hide Join, ValidChildName, FilesAt, Plain;
    if entries != [] {
      var front, last := Front(entries), Last(entries);
      assert WellFormed(front);
      assert entries[|entries| - 1] == last;
      OnceIn(front, dir, prefix, path);
      OnceAt(last, dir, prefix, path);
      if |dir| < |path| && dir <= path && path[|dir|] == last.name {
        FoundNowhere(front, path[|dir|..]);
      }
    }
  }

  /** In a well-formed tree the wanted files are a set: a key occurs once if its segments lead to a file
      and it has the prefix, and not at all otherwise. */
  lemma FilesAreExact(tree: seq<Entry>, prefix: Bytes, key: Bytes)
    requires WellFormed(tree)
    ensures FilesIn(tree, [], prefix)[key] == if prefix <= key && Find(Directory(tree), Split(key)) == Some(File)
              then 1 else 0
  {
    hide Join, Split, WellFormed, FilesIn, FindIn;
    SegmentsArePlain(key);
    JoinSplit(key);
    OnceIn(tree, [], prefix, Split(key));
    JoinNothing();
    assert Split(key)[0..] == Split(key);
  }
}
