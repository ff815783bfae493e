/** The bounded recursive listing: a worklist of directories, one LISTSTATUS request each.  The server is
    a function from the number of the request and its path to an arbitrary answer. */
module HdfsList {
  import opened Basics
  import opened HdfsPath
  import opened HdfsTree

  const MAX_LIST_ENTRIES := 10_000

  datatype Reply = Listing(entries: seq<Status>) | Failed

  datatype Outcome =
    | Keys(keys: seq<Bytes>)
    | Rejected
    | RequestFailed
    | TooManyEntries
    | InvalidName

  type Server = (nat, Bytes) -> Reply

  // ---- paths and prefixes ---------------------------------------------------------------------------------

  function Root(bucket: Bytes): Bytes {
    [SLASH] + Encode(bucket)
  }

  function DirPath(bucket: Bytes, dir: Bytes): Bytes {
    if dir == [] then Root(bucket) else Root(bucket) + [SLASH] + EncodeKeyPath(dir)
  }

  predicate ValidPrefix(prefix: Bytes) {
    && !([SLASH] <= prefix)
    && BACKSLASH !in prefix
    && forall s | s in Split(prefix) :: !DotSegment(s)
  }

  /** `validate_prefix`. */
  method ValidatePrefix(prefix: Bytes) returns (ok: bool)
    ensures ok <==> ValidPrefix(prefix)
  {
    hide Split;
    var segments := Split(prefix);
    if [SLASH] <= prefix || BACKSLASH in prefix {
      return false;
    }
    for i := 0 to |segments|
      invariant forall k | 0 <= k < i :: !DotSegment(segments[k])
    {
      if DotSegment(segments[i]) {
        assert segments[i] in segments;
        return false;
      }
    }
    return true;
  }

  lemma {:induction false} SplitPrefix(s: Bytes, t: Bytes)
    ensures |Split(s)| <= |Split(s + t)|
    ensures forall i | 0 <= i < |Split(s)| - 1 :: Split(s + t)[i] == Split(s)[i]
    ensures Last(Split(s)) <= Split(s + t)[|Split(s)| - 1]
    decreases |s|
  {
    if s == [] {
      assert s + t == t;
    } else {
      SplitPrefix(s[1..], t);
      assert (s + t)[1..] == s[1..] + t && (s + t)[0] == s[0];
      var rest, rest' := Split(s[1..]), Split(s[1..] + t);
      if s[0] == SLASH {
        assert Split(s) == [[]] + rest && Split(s + t) == [[]] + rest';
      } else {
        assert Split(s) == [[s[0]] + rest[0]] + rest[1..] && Split(s + t) == [[s[0]] + rest'[0]] + rest'[1..];
      }
    }
  }

  /** Every beginning of a valid key may be asked for, the empty one and one that ends in a slash
      included, except exactly those whose last segment is a dot or two dots. */
  lemma PrefixOfKeyIff(key: Bytes, n: nat)
    requires ValidKey(key) && n <= |key|
    ensures ValidPrefix(key[..n]) <==> !DotSegment(Last(Split(key[..n])))
  {
    hide Split, DotSegment;
    var prefix, rest := key[..n], key[n..];
    assert prefix + rest == key;
    SplitPrefix(prefix, rest);
    KeySegments(key);
    if n > 0 {
      assert prefix[0] == key[0];
      assert key[0] != SLASH by {
        BadKeyIfSlash(key);
      }
    }
    assert BACKSLASH !in key by {
      BadKeyIfSlash(key);
    }
    assert BACKSLASH !in prefix;
    var segments := Split(prefix);
    forall i | 0 <= i < |segments| - 1
      ensures !DotSegment(segments[i])
    {
      assert Split(key)[i] in Split(key);
    }
    assert forall s | s in segments :: s == Last(segments) || exists i :: 0 <= i < |segments| - 1 && segments[i] == s;
    assert Last(segments) in segments;
  }

  lemma BadKeyIfSlash(key: Bytes)
    requires ValidKey(key)
    ensures key != [] && key[0] != SLASH && BACKSLASH !in key
  {
    if key == [] || key[0] == SLASH || BACKSLASH in key {
      BadKey(key);
    }
  }

  /** A path that stays at or below the bucket even after dot-segment removal. */
  ghost predicate Inside(bucket: Bytes, path: Bytes) {
    && Root(bucket) <= path
    && (|path| == |Root(bucket)| || path[|Root(bucket)|] == SLASH)
    && RemoveDotSegments(path, []) == path
    && forall i | 0 <= i < |path| :: UrlByte(path[i])
  }

  /** A byte that stands for itself in the path of a URL. */
  ghost predicate UrlByte(b: byte) {
    UriUnreserved(b) || b as char == '%' || b as char == '/'
  }

  ghost predicate DirName(dir: Bytes) {
    dir == [] || ValidKey(dir)
  }

  lemma {:induction false} SplitSnoc(dir: Bytes, name: Bytes)
    requires Plain(name)
    ensures Split(dir + [SLASH] + name) == Split(dir) + [name]
    decreases |dir|
  {
    var s := dir + [SLASH] + name;
    if dir == [] {
      SplitPlain(name);
      assert s[1..] == name;
    } else {
      SplitSnoc(dir[1..], name);
      assert s[1..] == dir[1..] + [SLASH] + name;
    }
  }

  lemma ChildIsKey(dir: Bytes, name: Bytes)
    requires DirName(dir) && ValidChildName(name)
    ensures ValidKey(Child(dir, name))
  {
    hide Split;
    if dir == [] {
      SplitPlain(name);
    } else {
      SplitSnoc(dir, name);
    }
  }

  /** A request for a directory goes to its object path, and that for the root to the bucket. */
  lemma RequestsStayInside(bucket: Bytes, dir: Bytes)
    requires ValidBucket(bucket) && DirName(dir)
    ensures dir == [] ==> Split(DirPath(bucket, dir)) == [[], Encode(bucket)]
    ensures dir != [] ==> ObjectPath(bucket, dir) == Some(DirPath(bucket, dir))
    ensures Inside(bucket, DirPath(bucket, dir))
  {
    hide RemoveDotSegments, Encode, EncodeKeyPath, ValidKey, Split, UriUnreserved, EncodeAll, Join;
    EncodedIsSafe(bucket);
    if dir == [] {
      EncodedIsProper(bucket);
      NothingToRemove([Encode(bucket)], []);
      var path := Absolute([Encode(bucket)]);
      assert path == [SLASH] + Encode(bucket) + Absolute([Encode(bucket)][1..]);
      assert path == Root(bucket) && [] + path == path;
      SplitFirst([], Encode(bucket));
      SplitPlain(Encode(bucket));
      assert [] + [SLASH] + Encode(bucket) == path && [[]] + [Encode(bucket)] == [[], Encode(bucket)];
    } else {
      PathIsNormalised(bucket, dir);
      assert ObjectPath(bucket, dir).value == DirPath(bucket, dir);
      KeyPathIsSafe(dir);
    }
  }

  ghost predicate UrlBytes(s: Bytes) {
    forall i | 0 <= i < |s| :: UrlByte(s[i])
  }

  lemma KeyPathIsSafe(key: Bytes)
    ensures UrlBytes(EncodeKeyPath(key))
  {
    hide Encode, UriUnreserved, Split, Join;
    var encoded := EncodeAll(Split(key));
    forall s | s in encoded
      ensures UrlBytes(s)
    {
      var k :| 0 <= k < |encoded| && encoded[k] == s;
      EncodedIsSafe(Split(key)[k]);
    }
    JoinIsSafe(encoded);
  }

  lemma {:induction false} JoinIsSafe(segments: seq<Bytes>)
    requires forall s | s in segments :: UrlBytes(s)
    ensures UrlBytes(Join(segments))
    decreases |segments|
  {
    hide UriUnreserved;
    if |segments| >= 1 {
      assert segments[0] in segments;
      assert forall s | s in segments[1..] :: s in segments;
      JoinIsSafe(segments[1..]);
    }
  }

  // ---- one answer -------------------------------------------------------------------------------------------

  function DirsOf(entries: seq<Status>, dir: Bytes): seq<Bytes> {
    if entries == [] then []
    else DirsOf(Front(entries), dir) + if Last(entries).kind.DirectoryKind?
        then [Child(dir, Last(entries).suffix)] else []
  }

  function FilesOf(entries: seq<Status>, dir: Bytes, prefix: Bytes): seq<Bytes> {
    if entries == [] then []
    else
      var child := Child(dir, Last(entries).suffix);
      FilesOf(Front(entries), dir, prefix) + if Last(entries).kind.FileKind? && prefix <= child then [child] else []
  }

  predicate AllNamesValid(entries: seq<Status>) {
    forall i | 0 <= i < |entries| :: ValidChildName(entries[i].suffix)
  }

  datatype Visit = Done | OverLimit | BadName

  /** What one answer does: the limit is checked before the name, entry by entry. */
  predicate VisitIs(entries: seq<Status>, seen: nat, visit: Visit)
    requires seen <= MAX_LIST_ENTRIES
  {
    var room := MAX_LIST_ENTRIES - seen;
    match visit
    case Done => |entries| <= room && AllNamesValid(entries)
    case OverLimit => |entries| > room && AllNamesValid(entries[..room])
    case BadName => exists i :: 0 <= i < |entries| && i < room && !ValidChildName(entries[i].suffix)
  }

  lemma OneMoreEntry(entries: seq<Status>, i: nat, dir: Bytes, prefix: Bytes)
    requires i < |entries|
    ensures var status, child := entries[i], Child(dir, entries[i].suffix);
            && DirsOf(entries[..i + 1], dir)
               == DirsOf(entries[..i], dir) + (if status.kind.DirectoryKind? then [child] else [])
            && FilesOf(entries[..i + 1], dir, prefix)
               == FilesOf(entries[..i], dir,
                   prefix) + (if status.kind.FileKind? && prefix <= child then [child] else [])
  {
    hide Child;
    assert Front(entries[..i + 1]) == entries[..i] && Last(entries[..i + 1]) == entries[i];
  }

  lemma NoEntries(dir: Bytes, prefix: Bytes)
    ensures DirsOf([], dir) == [] && FilesOf([], dir, prefix) == []
  {
  }

  /** The inner loop of `list`. */
  method Absorb(entries: seq<Status>, dir: Bytes, prefix: Bytes, queue: seq<Bytes>, keys: seq<Bytes>, seen: nat)
    returns (visit: Visit, queue': seq<Bytes>, keys': seq<Bytes>, seen': nat)
    requires seen <= MAX_LIST_ENTRIES
    ensures VisitIs(entries, seen, visit)
    ensures visit.Done? ==> queue' == queue + DirsOf(entries, dir) && keys' == keys + FilesOf(entries, dir, prefix)
    ensures visit.Done? ==> seen' == seen + |entries|
  {
    hide Child, ValidChildName, DirsOf, FilesOf;
    queue', keys', seen' := queue, keys, seen;
    NoEntries(dir, prefix);
    assert entries[..0] == [];
    for i := 0 to |entries|
      invariant seen' == seen + i <= MAX_LIST_ENTRIES
      invariant AllNamesValid(entries[..i])
      invariant queue' == queue + DirsOf(entries[..i], dir)
      invariant keys' == keys + FilesOf(entries[..i], dir, prefix)
    {
      var status := entries[i];
      seen' := seen' + 1;
      if seen' > MAX_LIST_ENTRIES {
        return OverLimit, queue', keys', seen';
      }
      if !ValidChildName(status.suffix) {
        return BadName, queue', keys', seen';
      }
      var child := Child(dir, status.suffix);
      OneMoreEntry(entries, i, dir, prefix);
      match status.kind {
        case DirectoryKind => queue' := queue' + [child];
        case FileKind =>
          if prefix <= child {
            keys' := keys' + [child];
          }
        case OtherKind =>
      }
    }
    assert entries[..|entries|] == entries;
    visit := Done;
  }

  lemma {:induction false} PushedAreDirectories(entries: seq<Status>, dir: Bytes, prefix: Bytes)
    requires DirName(dir) && AllNamesValid(entries)
    ensures |DirsOf(entries, dir)| <= |entries|
    ensures forall d | d in DirsOf(entries, dir) :: DirName(d)
    ensures forall k | k in FilesOf(entries, dir, prefix) :: ValidKey(k) && prefix <= k
    decreases |entries|
  {
    hide ValidKey, ValidChildName, Child;
    if entries != [] {
      PushedAreDirectories(Front(entries), dir, prefix);
      ChildIsKey(dir, Last(entries).suffix);
    }
  }

  // ---- a server with a tree -----------------------------------------------------------------------------------

  /** Every directory of the tree is answered with its entries, at any time. */
  ghost predicate Holds(server: Server, bucket: Bytes, tree: seq<Entry>) {
    forall n: nat, path: seq<Bytes> | IsDirectory(tree, path) ::
      server(n, DirPath(bucket, Join(path))) == Listing(Statuses(Find(Directory(tree), path).value.children))
  }

  ghost predicate IsDirectory(tree: seq<Entry>, path: seq<Bytes>) {
    Find(Directory(tree), path).Some? && Find(Directory(tree), path).value.Directory?
  }

  /** A directory waiting in the worklist: its path and its entries. */
  datatype Waiting = Waiting(path: seq<Bytes>, children: seq<Entry>)

  ghost function Subdirectories(entries: seq<Entry>, path: seq<Bytes>): seq<Waiting> {
    if entries == [] then []
    else
      var last := Last(entries);
      Subdirectories(Front(entries), path)
        + if last.node.Directory? then [Waiting(path + [last.name], last.node.children)] else []
  }

  ghost function SizeOf(waiting: seq<Waiting>): nat {
    if waiting == [] then 0 else SizeOf(Front(waiting)) + Size(Last(waiting).children)
  }

  ghost function FilesWaiting(waiting: seq<Waiting>, prefix: Bytes): multiset<Bytes> {
    if waiting == [] then multiset{}
    else FilesWaiting(Front(waiting), prefix) + FilesIn(Last(waiting).children, Join(Last(waiting).path), prefix)
  }

  ghost predicate Located(tree: seq<Entry>, w: Waiting) {
    && Names(w.path)
    && Find(Directory(tree), w.path) == Some(Directory(w.children))
    && WellFormed(w.children)
  }

  ghost predicate Matches(tree: seq<Entry>, waiting: seq<Waiting>, queue: seq<Bytes>) {
    && |waiting| == |queue|
    && forall i | 0 <= i < |queue| :: Located(tree, waiting[i]) && queue[i] == Join(waiting[i].path)
  }

  lemma StatusesFront(entries: seq<Entry>)
    requires entries != []
    ensures Statuses(entries) != []
    ensures Front(Statuses(entries)) == Statuses(Front(entries))
    ensures Last(Statuses(entries)) == Status(Last(entries).name, KindOf(Last(entries).node))
  {
  }

  lemma {:induction false} FindFollows(node: Node, path: seq<Bytes>, rest: seq<Bytes>)
    requires Find(node, path).Some?
    ensures Find(node, path + rest) == Find(Find(node, path).value, rest)
    decreases |path|, 1, 0
  {
    if path == [] {
      assert path + rest == rest;
    } else {
      FindInFollows(node.children, path, rest);
    }
  }

  lemma {:induction false} FindInFollows(entries: seq<Entry>, path: seq<Bytes>, rest: seq<Bytes>)
    requires path != [] && FindIn(entries, path).Some?
    ensures FindIn(entries, path + rest) == Find(FindIn(entries, path).value, rest)
    decreases |path|, 0, |entries|
  {
    if Last(entries).name == path[0] {
      assert (path + rest)[1..] == path[1..] + rest;
      FindFollows(Last(entries).node, path[1..], rest);
    } else {
      FindInFollows(Front(entries), path, rest);
    }
  }

  lemma {:induction false} FindsByName(entries: seq<Entry>, i: nat)
    requires i < |entries| && DistinctNames(entries)
    ensures FindIn(entries, [entries[i].name]) == Some(entries[i].node)
    decreases |entries|
  {
    if i < |entries| - 1 {
      FindsByName(Front(entries), i);
    }
  }

  lemma SubdirectoryIsLocated(tree: seq<Entry>, w: Waiting, i: nat)
    requires Located(tree, w) && i < |w.children| && w.children[i].node.Directory?
    ensures Located(tree, Waiting(w.path + [w.children[i].name], w.children[i].node.children))
  {
    hide ValidChildName, Find, FindIn;
    FindFollows(Directory(tree), w.path, [w.children[i].name]);
    FindsByName(w.children, i);
    FindChild(w.children, w.children[i].name);
  }

  lemma FindChild(children: seq<Entry>, name: Bytes)
    ensures Find(Directory(children), [name]) == FindIn(children, [name])
  {
  }

  /** The names pushed for a directory are those of its subdirectories, each located in the tree. */
  lemma {:induction false} PushedMatch(tree: seq<Entry>, w: Waiting, n: nat)
    requires Located(tree, w) && n <= |w.children|
    ensures Matches(tree, Subdirectories(w.children[..n], w.path), DirsOf(Statuses(w.children[..n]), Join(w.path)))
    decreases n
  {
    hide Join, Located, Statuses, Child;
    if n == 0 {
      assert w.children[..n] == [];
      NoStatuses();
    } else {
      PushedMatch(tree, w, n - 1);
      var part := w.children[..n];
      assert Front(part) == w.children[..n - 1] && Last(part) == w.children[n - 1];
      StatusesFront(part);
      if Last(part).node.Directory? {
        SubdirectoryIsLocated(tree, w, n - 1);
        LocatedNames(tree, w);
        JoinSnoc(w.path, Last(part).name);
      }
    }
  }

  lemma NoStatuses()
    ensures Statuses([]) == []
  {
  }

  lemma LocatedNames(tree: seq<Entry>, w: Waiting)
    requires Located(tree, w)
    ensures Names(w.path)
  {
  }

  lemma MatchesAppend(tree: seq<Entry>, a: seq<Waiting>, b: seq<Waiting>, q: seq<Bytes>, r: seq<Bytes>)
    requires Matches(tree, a, q) && Matches(tree, b, r)
    ensures Matches(tree, a + b, q + r)
  {
    hide Located, Join;
  }

  /** Replacing a directory by its subdirectories accounts for exactly its own entries. */
  lemma {:induction false} SizeIsConserved(waiting: seq<Waiting>, entries: seq<Entry>, path: seq<Bytes>)
    ensures SizeOf(waiting + Subdirectories(entries, path)) + |entries| == SizeOf(waiting) + Size(entries)
    decreases |entries|
  {
    if entries == [] {
      assert waiting + Subdirectories(entries, path) == waiting;
    } else {
      var front, last := Front(entries), Last(entries);
      SizeIsConserved(waiting, front, path);
      var before := Subdirectories(front, path);
      if last.node.Directory? {
        var w := Waiting(path + [last.name], last.node.children);
        assert waiting + Subdirectories(entries, path) == (waiting + before) + [w];
        assert Front((waiting + before) + [w]) == waiting + before;
      } else {
        assert waiting + Subdirectories(entries, path) == waiting + before;
      }
    }
  }

  lemma FilesWaitingSnoc(waiting: seq<Waiting>, w: Waiting, prefix: Bytes)
    ensures FilesWaiting(waiting + [w], prefix) ==
              FilesWaiting(waiting, prefix) + FilesIn(w.children, Join(w.path), prefix)
  {
    hide Join, FilesIn;
    assert Front(waiting + [w]) == waiting && Last(waiting + [w]) == w;
  }

  /** One entry is either a subdirectory that waits or, at most, a file that is returned. */
  lemma EntryIsConserved(waiting: seq<Waiting>, statuses: seq<Status>, last: Entry, path: seq<Bytes>, prefix: Bytes)
    requires Names(path)
    ensures var more := if last.node.Directory? then [Waiting(path + [last.name], last.node.children)] else [];
            var files := FilesOf(statuses + [Status(last.name, KindOf(last.node))], Join(path), prefix);
            && FilesWaiting(waiting + more, prefix) + multiset(files)
            == FilesWaiting(waiting, prefix) + multiset(FilesOf(statuses, Join(path), prefix))
               + FilesAt(last, Join(path), prefix)
  {
    hide Join, Child, Names, FilesIn, FilesWaiting;
    JoinSnoc(path, last.name);
    var status := Status(last.name, KindOf(last.node));
    assert Front(statuses + [status]) == statuses && Last(statuses + [status]) == status;
    assert waiting + [] == waiting;
    if last.node.Directory? {
      FilesWaitingSnoc(waiting, Waiting(path + [last.name], last.node.children), prefix);
    }
  }

  /** And exactly its own wanted files. */
  lemma {:induction false} FilesAreConserved(waiting: seq<Waiting>, entries: seq<Entry>, path: seq<Bytes>,
      prefix: Bytes)
    requires Names(path)
    ensures FilesWaiting(waiting + Subdirectories(entries, path), prefix)
            + multiset(FilesOf(Statuses(entries), Join(path), prefix))
         == FilesWaiting(waiting, prefix) + FilesIn(entries, Join(path), prefix)
    decreases |entries|
  {
    hide Join, Child, Statuses, Names, FilesAt, FilesWaiting, FilesOf;
    if entries == [] {
      NoStatuses();
      NoFiles(Join(path), prefix);
      assert waiting + Subdirectories(entries, path) == waiting;
    } else {
      var front, last := Front(entries), Last(entries);
      FilesAreConserved(waiting, front, path, prefix);
      StatusesFront(entries);
      var status := Status(last.name, KindOf(last.node));
      assert Statuses(entries) == Statuses(front) + [status];
      var before := Subdirectories(front, path);
      var more := if last.node.Directory? then [Waiting(path + [last.name], last.node.children)] else [];
      assert waiting + Subdirectories(entries, path) == (waiting + before) + more;
      EntryIsConserved(waiting + before, Statuses(front), last, path, prefix);
    }
  }

  lemma NoFiles(dir: Bytes, prefix: Bytes)
    ensures FilesOf([], dir, prefix) == []
  {
  }

  // ---- list ---------------------------------------------------------------------------------------------------

  /** How many entries the answers to the requests hold together. */
  ghost function EntriesSeen(server: Server, asked: seq<Bytes>): nat {
    if asked == [] then 0
    else
      var reply := server(|asked| - 1, Last(asked));
      EntriesSeen(server, Front(asked)) + if reply.Listing? then |reply.entries| else 0
  }

  /** What the worklist owes and what it has, on a server that holds a tree. */
  ghost predicate Accounts(tree: seq<Entry>, prefix: Bytes, waiting: seq<Waiting>, queue: seq<Bytes>,
      keys: seq<Bytes>, seen: nat) {
    && Matches(tree, waiting, queue)
    && seen + SizeOf(waiting) == Size(tree)
    && multiset(keys) + FilesWaiting(waiting, prefix) == FilesIn(tree, [], prefix)
  }

  lemma AccountsAtStart(tree: seq<Entry>, prefix: Bytes)
    requires WellFormed(tree)
    ensures Accounts(tree, prefix, [Waiting([], tree)], [[]], [], 0)
  {
    JoinNothing();
    FilesWaitingSnoc([], Waiting([], tree), prefix);
    assert [] + [Waiting([], tree)] == [Waiting([], tree)];
    assert SizeOf([Waiting([], tree)]) == SizeOf(Front([Waiting([], tree)])) + Size(tree);
  }

  /** Visiting the directory on top of the worklist keeps the accounts. */
  lemma AccountsStep(tree: seq<Entry>, prefix: Bytes, waiting: seq<Waiting>, queue: seq<Bytes>, keys: seq<Bytes>,
      seen: nat)
    requires queue != [] && Accounts(tree, prefix, waiting, queue, keys, seen)
    ensures waiting != [] && Located(tree, Last(waiting)) && Last(queue) == Join(Last(waiting).path)
    ensures var w := Last(waiting);
            var entries := Statuses(w.children);
            && seen + |entries| <= Size(tree)
            && Accounts(tree, prefix, Front(waiting) + Subdirectories(w.children, w.path),
                 Front(queue) + DirsOf(entries, Last(queue)), keys + FilesOf(entries, Last(queue), prefix),
                 seen + |entries|)
  {
    hide Join, Located, Statuses, FilesOf, DirsOf, Subdirectories, Size, FilesIn;
    var w, rest := Last(waiting), Front(waiting);
    LocatedNames(tree, w);
    assert waiting[|waiting| - 1] == w;
    var entries := Statuses(w.children);
    assert |entries| == |w.children| by {
      StatusesLength(w.children);
    }
    PushedMatch(tree, w, |w.children|);
    assert w.children[..|w.children|] == w.children;
    MatchesAppend(tree, rest, Subdirectories(w.children, w.path), Front(queue), DirsOf(entries, Last(queue)));
    SizeIsConserved(rest, w.children, w.path);
    FilesAreConserved(rest, w.children, w.path, prefix);
    assert rest + [w] == waiting;
    FilesWaitingSnoc(rest, w, prefix);
  }

  lemma StatusesLength(entries: seq<Entry>)
    ensures |Statuses(entries)| == |entries|
  {
  }

  lemma HeldReply(server: Server, bucket: Bytes, tree: seq<Entry>, n: nat, w: Waiting)
    requires Holds(server, bucket, tree) && Located(tree, w)
    ensures server(n, DirPath(bucket, Join(w.path))) == Listing(Statuses(w.children))
    ensures AllNamesValid(Statuses(w.children))
  {
    hide DirPath, Join, Find, ValidChildName;
    assert IsDirectory(tree, w.path);
  }

  lemma VisitMeans(entries: seq<Status>, seen: nat, visit: Visit)
    requires seen <= MAX_LIST_ENTRIES && VisitIs(entries, seen, visit)
    ensures visit.Done? ==> seen + |entries| <= MAX_LIST_ENTRIES && AllNamesValid(entries)
    ensures visit.OverLimit? ==> seen + |entries| > MAX_LIST_ENTRIES
    ensures visit.BadName? ==> !AllNamesValid(entries)
  {
  }

  lemma AccountsAtEnd(tree: seq<Entry>, prefix: Bytes, waiting: seq<Waiting>, keys: seq<Bytes>, seen: nat)
    requires Accounts(tree, prefix, waiting, [], keys, seen)
    ensures seen == Size(tree) && multiset(keys) == FilesIn(tree, [], prefix)
  {
    hide Size, FilesIn;
  }

  function EntriesOf(reply: Reply): seq<Status> {
    if reply.Listing? then reply.entries else []
  }

  /** Every request so far was answered with proper names. */
  ghost predicate Answered(server: Server, asked: seq<Bytes>) {
    forall i | 0 <= i < |asked| :: server(i, asked[i]).Listing? && AllNamesValid(server(i, asked[i]).entries)
  }

  /** The wanted files reported for the visited directories, in order. */
  ghost function Gathered(server: Server, asked: seq<Bytes>, dirs: seq<Bytes>, prefix: Bytes): seq<Bytes>
    requires |dirs| == |asked|
  {
    if asked == [] then []
    else
      var entries := EntriesOf(server(|asked| - 1, Last(asked)));
      Gathered(server, Front(asked), Front(dirs), prefix) + FilesOf(entries, Last(dirs), prefix)
  }

  /** The directories reported for them, with multiplicity. */
  ghost function Reported(server: Server, asked: seq<Bytes>, dirs: seq<Bytes>): multiset<Bytes>
    requires |dirs| == |asked|
  {
    if asked == [] then multiset{}
    else
      var entries := EntriesOf(server(|asked| - 1, Last(asked)));
      Reported(server, Front(asked), Front(dirs)) + multiset(DirsOf(entries, Last(dirs)))
  }

  /** What a walk has done and still has to do, whatever the server answers: the root and every directory
      reported are visited or wait, each as often as it was reported, and every wanted file reported is
      among the keys. */
  ghost predicate Walk(server: Server, bucket: Bytes, prefix: Bytes, asked: seq<Bytes>, dirs: seq<Bytes>,
      queue: seq<Bytes>, keys: seq<Bytes>) {
    && |dirs| == |asked|
    && (forall i | 0 <= i < |dirs| :: asked[i] == DirPath(bucket, dirs[i]))
    && Answered(server, asked)
    && keys == Gathered(server, asked, dirs, prefix)
    && multiset(dirs) + multiset(queue) == multiset{[]} + Reported(server, asked, dirs)
  }

  lemma WalkStarts(server: Server, bucket: Bytes, prefix: Bytes)
    ensures Walk(server, bucket, prefix, [], [], [[]], [])
  {
  }

  /** A directory moves from the waiting to the visited ones, and what it reports joins the waiting. */
  lemma Shift(dirs: seq<Bytes>, front: seq<Bytes>, dir: Bytes, pushed: seq<Bytes>, all: multiset<Bytes>)
    requires multiset(dirs) + multiset(front + [dir]) == all
    ensures multiset(dirs + [dir]) + multiset(front + pushed) == all + multiset(pushed)
  {
  }

  lemma OneMoreAnswer(server: Server, asked: seq<Bytes>, dirs: seq<Bytes>, prefix: Bytes, path: Bytes, dir: Bytes)
    requires |dirs| == |asked| && server(|asked|, path).Listing?
    ensures var entries := server(|asked|, path).entries;
            && Gathered(server, asked + [path], dirs + [dir], prefix)
               == Gathered(server, asked, dirs, prefix) + FilesOf(entries, dir, prefix)
            && Reported(server, asked + [path], dirs + [dir]) ==
                Reported(server, asked, dirs) + multiset(DirsOf(entries, dir))
  {
    hide FilesOf, DirsOf;
    assert Front(asked + [path]) == asked && Front(dirs + [dir]) == dirs;
    assert Last(asked + [path]) == path && Last(dirs + [dir]) == dir;
  }

  lemma WalkGoesOn(server: Server, bucket: Bytes, prefix: Bytes, asked: seq<Bytes>, dirs: seq<Bytes>,
      queue: seq<Bytes>, keys: seq<Bytes>)
    requires Walk(server, bucket, prefix, asked, dirs, queue, keys) && queue != []
    requires var reply := server(|asked|, DirPath(bucket, Last(queue)));
             reply.Listing? && AllNamesValid(reply.entries)
    ensures var entries := server(|asked|, DirPath(bucket, Last(queue))).entries;
            Walk(server, bucket, prefix, asked + [DirPath(bucket, Last(queue))], dirs + [Last(queue)],
                 Front(queue) + DirsOf(entries, Last(queue)), keys + FilesOf(entries, Last(queue), prefix))
  {
    hide DirPath, AllNamesValid, FilesOf, DirsOf, Gathered, Reported;
    var path, dir := DirPath(bucket, Last(queue)), Last(queue);
    OneMoreAnswer(server, asked, dirs, prefix, path, dir);
    assert queue == Front(queue) + [dir];
    var pushed := DirsOf(server(|asked|, path).entries, dir);
    Shift(dirs, Front(queue), dir, pushed, multiset{[]} + Reported(server, asked, dirs));
  }

  /** `list`.  Whatever the server answers there are at most 10,001 requests, none of them outside the
      bucket; a complete walk visits the root and each reported directory, returns each reported file
      with the prefix, and every key is valid; the first answer that is an error, goes over the limit or
      holds an invalid name ends it.  On a server that holds a well-formed tree it returns each wanted
      file exactly once, unless the tree has more than 10,000 entries, in which case it fails. */
  method List(server: Server, bucket: Bytes, prefix: Bytes, ghost tree: seq<Entry>)
    returns (out: Outcome, asked: seq<Bytes>, ghost dirs: seq<Bytes>)
    ensures out.Rejected? <==> !ValidBucket(bucket) || !ValidPrefix(prefix)
    ensures out.Rejected? ==> asked == []
    ensures |asked| <= 10_001
    ensures forall p | p in asked :: Inside(bucket, p)
    ensures out.Keys? ==> forall k | k in out.keys :: ValidKey(k) && prefix <= k
    ensures out.Keys? ==> EntriesSeen(server, asked) <= 10_000
    ensures out.Keys? ==> Walk(server, bucket, prefix, asked, dirs, [], out.keys)
    ensures !out.Rejected? && !out.Keys? ==>
              asked != [] && Answered(server, Front(asked)) && EntriesSeen(server, Front(asked)) <= 10_000
    ensures out.RequestFailed? ==> server(|asked| - 1, Last(asked)).Failed?
    ensures out.TooManyEntries? || out.InvalidName? ==>
              && server(|asked| - 1, Last(asked)).Listing?
              && VisitIs(server(|asked| - 1, Last(asked)).entries, EntriesSeen(server, Front(asked)),
                         if out.InvalidName? then BadName else OverLimit)
    ensures !out.Rejected? && WellFormed(tree) && Holds(server, bucket, tree) ==>
              if Size(tree) <= 10_000 then out.Keys? && multiset(out.keys) == FilesIn(tree, [], prefix)
              else out.TooManyEntries?
  {
    hide ValidBucket, ValidKey, Inside, DirPath, Accounts, Holds, WellFormed, Size, FilesIn, DirsOf, FilesOf, VisitIs,
      Located, Statuses, Subdirectories, Join, AllNamesValid, Walk, ValidPrefix, Encode, Split, ObjectPath, DirName,
      Answered;
    asked, dirs := [], [];
    var accepted := ValidatePrefix(prefix);
    if !ValidBucket(bucket) || !accepted {
      return Rejected, asked, dirs;
    }
    ghost var held := WellFormed(tree) && Holds(server, bucket, tree);
    var queue, keys, seen := [[]], [], 0;
    ghost var waiting := [Waiting([], tree)];
    WalkStarts(server, bucket, prefix);
    RootIsDirectory();
    if held {
      AccountsAtStart(tree, prefix);
    }
    while queue != []
      invariant seen <= MAX_LIST_ENTRIES && |asked| + |queue| <= seen + 1
      invariant seen == EntriesSeen(server, asked)
      invariant forall p | p in asked :: Inside(bucket, p)
      invariant forall d | d in queue :: DirName(d)
      invariant forall k | k in keys :: ValidKey(k) && prefix <= k
      invariant Walk(server, bucket, prefix, asked, dirs, queue, keys)
      invariant held ==> Accounts(tree, prefix, waiting, queue, keys, seen)
      decreases MAX_LIST_ENTRIES - seen + |queue|
    {
      var dir, rest := Last(queue), Front(queue);
      assert dir in queue;
      var path := DirPath(bucket, dir);
      var reply := server(|asked|, path);
      RequestsStayInside(bucket, dir);
      WalkIsAnswered(server, bucket, prefix, asked, dirs, queue, keys);
      if held {
        AccountsStep(tree, prefix, waiting, queue, keys, seen);
        HeldReply(server, bucket, tree, |asked|, Last(waiting));
      }
      ghost var before := asked;
      asked := asked + [path];
      assert Front(asked) == before;
      if reply.Failed? {
        return RequestFailed, asked, dirs;
      }
      var visit, pushed, found, total := Absorb(reply.entries, dir, prefix, rest, keys, seen);
      VisitMeans(reply.entries, seen, visit);
      if visit.OverLimit? {
        return TooManyEntries, asked, dirs;
      }
      if visit.BadName? {
        return InvalidName, asked, dirs;
      }
      PushedAreDirectories(reply.entries, dir, prefix);
      WalkGoesOn(server, bucket, prefix, before, dirs, queue, keys);
      dirs := dirs + [dir];
      if held {
        waiting := Front(waiting) + Subdirectories(Last(waiting).children, Last(waiting).path);
      }
      queue, keys, seen := pushed, found, total;
    }
    if held {
      AccountsAtEnd(tree, prefix, waiting, keys, seen);
    }
    out := Keys(keys);
  }

  lemma RootIsDirectory()
    ensures DirName([])
  {
  }

  lemma WalkIsAnswered(server: Server, bucket: Bytes, prefix: Bytes, asked: seq<Bytes>, dirs: seq<Bytes>,
      queue: seq<Bytes>, keys: seq<Bytes>)
    requires Walk(server, bucket, prefix, asked, dirs, queue, keys)
    ensures Answered(server, asked)
  {
  }
}
