/**
 * `file_tree`: the nested view of the checkout. A recursive walk turns every
 * directory (except ones named `.git`) into a dict and every file whose
 * relative path is not ignored into an entry dict; then every path the
 * status reports as deleted is grafted in, creating missing directories and
 * overwriting whatever sits at its last segment.
 *
 * The filesystem is an abstract snapshot (`FsNode`) given as input; the URL
 * builder and the MIME lookup are opaque function parameters.
 */
module FileTree {
  import opened Wrappers
  import opened PyStr
  import opened Json
  import opened Files

  /** A snapshot of the checkout: a file with its `st_size`, or a directory of named children. */
  datatype FsNode = File(size: nat) | Dir(children: map<string, FsNode>)

  /** The node reached by following the names in `q` from `node`. */
  function FsGet(node: FsNode, q: seq<string>): Option<FsNode>
    decreases |q|
  {
    if q == [] then Some(node)
    else if node.Dir? && q[0] in node.children then FsGet(node.children[q[0]], q[1..])
    else None
  }

  /** `str(p.relative_to(CODE_DIR))` for the node reached by `segs`. */
  function RelPath(segs: seq<string>): string
  {
    Join(segs, '/')
  }

  // ---------------------------------------------------------------------------
  // The walk
  // ---------------------------------------------------------------------------

  /** The entry dict the walk makes for a file at `rel` named `name`. */
  function FileEntry(rel: string, name: string, size: nat, changes: Changes,
                     url: string -> string, guess: string -> Option<string>): Json
  {
    JDict(map[
      "size_raw" := JInt(size),
      "size_human" := JStr(FmtSize(Bytes(size))),
      "file_path" := JStr(rel),
      "status" := JStr(KindName(KindOf(changes, rel))),
      "url" := JStr(url(rel)),
      "mime_type" := JStr(MimeType(guess, name))])
  }

  /**
   * Whether the walk gives child `name` of the directory at `segs` an entry:
   * a directory unless it is named `.git`, a file unless its relative path
   * is ignored.
   */
  predicate Kept(child: FsNode, segs: seq<string>, name: string, ignored: set<string>)
  {
    match child
    case Dir(_) => name != ".git"
    case File(_) => RelPath(segs + [name]) !in ignored
  }

  /** What the walk makes of `node` reached by `segs`: a dict for a directory, an entry for a file. */
  function Render(node: FsNode, segs: seq<string>, changes: Changes, ignored: set<string>,
                  url: string -> string, guess: string -> Option<string>): Json
    requires node.Dir? || segs != []
    decreases node, 1
  {
    match node
    case Dir(_) => JDict(WalkDir(node, segs, changes, ignored, url, guess))
    case File(size) => FileEntry(RelPath(segs), segs[|segs| - 1], size, changes, url, guess)
  }

  /** `_file_tree` of the directory `node` reached by `segs`: one key per kept child. */
  function WalkDir(node: FsNode, segs: seq<string>, changes: Changes, ignored: set<string>,
                   url: string -> string, guess: string -> Option<string>): map<string, Json>
    requires node.Dir?
    decreases node, 0
  {
    map name | name in node.children && Kept(node.children[name], segs, name, ignored) ::
      Render(node.children[name], segs + [name], changes, ignored, url, guess)
  }

  /**
   * `_file_tree`: a loop over the directory's children that assigns one key
   * per kept child, recursing into subdirectories. The result is the walk
   * above: its keys are exactly the kept children.
   */
  method FileTreeDir(node: FsNode, segs: seq<string>, changes: Changes, ignored: set<string>,
                     url: string -> string, guess: string -> Option<string>)
    returns (tree: map<string, Json>)
    requires node.Dir?
    ensures tree.Keys == set name | name in node.children && Kept(node.children[name], segs, name, ignored)
    ensures tree == WalkDir(node, segs, changes, ignored, url, guess)
    decreases node
  {
    tree := map[];
    var todo := node.children.Keys;
    while todo != {}
      invariant todo <= node.children.Keys
      invariant forall name :: name in tree <==>
        name in node.children && name !in todo && Kept(node.children[name], segs, name, ignored)
      invariant forall name :: name in tree ==>
        tree[name] == Render(node.children[name], segs + [name], changes, ignored, url, guess)
      decreases |todo|
    {
      var name :| name in todo;
      todo := todo - {name};
      var child := node.children[name];
      if child.Dir? {
        if name == ".git" {
          continue;
        }
        var sub := FileTreeDir(child, segs + [name], changes, ignored, url, guess);
        tree := tree[name := JDict(sub)];
      } else {
        var rel := RelPath(segs + [name]);
        if rel in ignored {
          continue;
        }
        tree := tree[name := FileEntry(rel, name, child.size, changes, url, guess)];
      }
    }
  }

  /** Every step along `q` from `node` (reached by `segs`) is a child the walk keeps. */
  predicate KeptAlong(node: FsNode, segs: seq<string>, q: seq<string>, ignored: set<string>)
    requires FsGet(node, q).Some?
    decreases |q|
  {
    q == [] || (Kept(node.children[q[0]], segs, q[0], ignored) &&
                KeptAlong(node.children[q[0]], segs + [q[0]], q[1..], ignored))
  }

  /**
   * The walk places what it makes of each node at that node's own nested
   * path, and nothing at a path one of whose steps it skips.
   */
  lemma {:induction false} WalkGet(node: FsNode, segs: seq<string>, q: seq<string>, changes: Changes,
                                   ignored: set<string>, url: string -> string, guess: string -> Option<string>)
    requires node.Dir? || segs != []
    requires FsGet(node, q).Some?
    ensures Get(Render(node, segs, changes, ignored, url, guess), q) ==
      if KeptAlong(node, segs, q, ignored)
      then Some(Render(FsGet(node, q).value, segs + q, changes, ignored, url, guess))
      else None
    decreases |q|
  {
    if q == [] {
      assert segs + q == segs;
    } else {
      var child := node.children[q[0]];
      var walked := Render(node, segs, changes, ignored, url, guess);
      assert walked == JDict(WalkDir(node, segs, changes, ignored, url, guess));
      WalkGet(child, segs + [q[0]], q[1..], changes, ignored, url, guess);
      assert segs + [q[0]] + q[1..] == segs + q;
    }
  }

  /** No step before the last is a directory named `.git`, nor the last one when it is a directory. */
  predicate OutsideGit(q: seq<string>, target: FsNode)
  {
    forall i :: 0 <= i < |q| && (i < |q| - 1 || target.Dir?) ==> q[i] != ".git"
  }

  /** Along an existing path, the walk keeps every step exactly when no step is `.git` and the file is not ignored. */
  lemma {:induction false} KeptAlongIff(node: FsNode, segs: seq<string>, q: seq<string>, ignored: set<string>)
    requires FsGet(node, q).Some?
    ensures var target := FsGet(node, q).value;
      KeptAlong(node, segs, q, ignored) <==>
        OutsideGit(q, target) && (target.File? && q != [] ==> RelPath(segs + q) !in ignored)
    decreases |q|
  {
    if q != [] {
      var child := node.children[q[0]];
      var target := FsGet(node, q).value;
      KeptAlongIff(child, segs + [q[0]], q[1..], ignored);
      assert segs + [q[0]] + q[1..] == segs + q;
      assert forall i :: 1 <= i < |q| ==> q[1..][i - 1] == q[i];
      if q[1..] != [] {
        assert child.Dir?;
      } else {
        assert q == [q[0]];
        assert child == target;
      }
    }
  }

  /**
   * Every file on disk that lies outside `.git` directories and is not
   * ignored appears once, at its nested path, with `file_path` its relative
   * path, `status` its reported kind or `unchanged`, its size raw and
   * formatted, its URL and its MIME type; an ignored one, or one inside a
   * `.git` directory, has no entry.
   */
  lemma WalkFile(root: map<string, FsNode>, q: seq<string>, size: nat, changes: Changes, ignored: set<string>,
                 url: string -> string, guess: string -> Option<string>)
    requires q != [] && FsGet(Dir(root), q) == Some(File(size))
    ensures Get(JDict(WalkDir(Dir(root), [], changes, ignored, url, guess)), q) ==
      if OutsideGit(q, File(size)) && RelPath(q) !in ignored
      then Some(FileEntry(RelPath(q), q[|q| - 1], size, changes, url, guess))
      else None
  {
    WalkGet(Dir(root), [], q, changes, ignored, url, guess);
    KeptAlongIff(Dir(root), [], q, ignored);
    assert [] + q == q;
  }

  /**
   * Every directory on disk outside `.git` becomes a dict at its nested
   * path, even an empty one, holding exactly its kept children.
   */
  lemma WalkDirectory(root: map<string, FsNode>, q: seq<string>, children: map<string, FsNode>, changes: Changes,
                      ignored: set<string>, url: string -> string, guess: string -> Option<string>)
    requires FsGet(Dir(root), q) == Some(Dir(children))
    ensures var got := Get(JDict(WalkDir(Dir(root), [], changes, ignored, url, guess)), q);
      if OutsideGit(q, Dir(children))
      then got.Some? && got.value.JDict? &&
        got.value.fields.Keys == set name | name in children && Kept(children[name], q, name, ignored)
      else got == None
  {
    WalkGet(Dir(root), [], q, changes, ignored, url, guess);
    KeptAlongIff(Dir(root), [], q, ignored);
    assert [] + q == q;
  }

  // ---------------------------------------------------------------------------
  // The deleted-path graft
  // ---------------------------------------------------------------------------

  /** Why building the tree failed. */
  datatype TreeError =
    | StatusFailed(error: ParseError)   // `get_changes` raised
    | NotADict                          // the graft cursor reached a string or a number (TypeError)

  /** The entry grafted for a deleted path: no size fields, status `deleted`. */
  function DeletedEntry(path: string, url: string -> string, guess: string -> Option<string>): Json
  {
    JDict(map[
      "file_path" := JStr(path),
      "status" := JStr(KindName(Deleted)),
      "url" := JStr(url(path)),
      "mime_type" := JStr(MimeType(guess, path))])
  }

  /**
   * One graft: walk the cursor down `parts` except the last, stepping into
   * an existing value or a new empty dict, then assign `leaf` at the last
   * part. A cursor that is not a dict raises.
   */
  function Insert(dir: Json, parts: seq<string>, leaf: Json): Result<Json, TreeError>
    requires parts != []
    decreases |parts|
  {
    if !dir.JDict? then Err(NotADict)
    else if |parts| == 1 then Ok(JDict(dir.fields[parts[0] := leaf]))
    else
      var next := if parts[0] in dir.fields then dir.fields[parts[0]] else JDict(map[]);
      match Insert(next, parts[1..], leaf)
      case Err(e) => Err(e)
      case Ok(sub) => Ok(JDict(dir.fields[parts[0] := sub]))
  }

  /** Every value the cursor would stand on along `parts` (other than past the end) is a dict or absent. */
  predicate Unblocked(dir: Json, parts: seq<string>)
  {
    forall k :: 0 <= k < |parts| ==> (Get(dir, parts[..k]).Some? ==> Get(dir, parts[..k]).value.JDict?)
  }

  /** `q` and `p` part ways: at some position both have, their names differ. */
  predicate Diverges(q: seq<string>, p: seq<string>)
    decreases |q|
  {
    q != [] && p != [] && (q[0] != p[0] || Diverges(q[1..], p[1..]))
  }

  lemma {:induction false} DivergesSymmetric(q: seq<string>, p: seq<string>)
    ensures Diverges(q, p) <==> Diverges(p, q)
    decreases |q|
  {
    if q != [] && p != [] {
      DivergesSymmetric(q[1..], p[1..]);
    }
  }

  /**
   * A graft succeeds exactly when the cursor never stands on a string or a
   * number; then the leaf is reachable at `parts`, every value on the way is
   * a dict, and nothing at a path that parts ways with `parts` changes.
   */
  lemma {:induction false} InsertSpec(dir: Json, parts: seq<string>, leaf: Json)
    requires parts != []
    ensures Insert(dir, parts, leaf).Ok? <==> Unblocked(dir, parts)
    ensures Insert(dir, parts, leaf).Ok? ==> Get(Insert(dir, parts, leaf).value, parts) == Some(leaf)
    ensures Insert(dir, parts, leaf).Ok? ==> forall k :: 0 <= k < |parts| ==>
      Get(Insert(dir, parts, leaf).value, parts[..k]).Some? &&
      Get(Insert(dir, parts, leaf).value, parts[..k]).value.JDict?
    decreases |parts|
  {
    var r := Insert(dir, parts, leaf);
    if !dir.JDict? {
      assert parts[..0] == [];
    } else if |parts| == 1 {
      assert parts[1..] == [];
      assert forall k :: 0 <= k < |parts| ==> parts[..k] == [];
    } else {
      var next := if parts[0] in dir.fields then dir.fields[parts[0]] else JDict(map[]);
      var tail := parts[1..];
      InsertSpec(next, tail, leaf);
      forall k | 1 <= k <= |parts|
        ensures Get(dir, parts[..k]) == if parts[0] in dir.fields then Get(next, tail[..k - 1]) else None
      {
        assert parts[..k][0] == parts[0];
        assert parts[..k][1..] == tail[..k - 1];
      }
      if parts[0] !in dir.fields {
        assert Unblocked(next, tail) by {
          forall k | 0 <= k < |tail| ensures Get(next, tail[..k]).Some? ==> Get(next, tail[..k]).value.JDict? {
            if k > 0 { assert tail[..k][0] == tail[0]; }
          }
        }
      }
      assert Unblocked(dir, parts) <==> Unblocked(next, tail) by {
        if Unblocked(next, tail) {
          forall k | 0 <= k < |parts| ensures Get(dir, parts[..k]).Some? ==> Get(dir, parts[..k]).value.JDict? {
            if k == 0 { assert parts[..0] == []; }
          }
        }
        if Unblocked(dir, parts) {
          forall k | 0 <= k < |tail| ensures Get(next, tail[..k]).Some? ==> Get(next, tail[..k]).value.JDict? {
            if parts[0] in dir.fields {
              assert Get(dir, parts[..k + 1]) == Get(next, tail[..k]);
            } else if k > 0 {
              assert tail[..k][0] == tail[0];
            }
          }
        }
      }
      if r.Ok? {
        var sub := Insert(next, tail, leaf).value;
        assert r.value == JDict(dir.fields[parts[0] := sub]);
        forall k | 1 <= k <= |parts| ensures Get(r.value, parts[..k]) == Get(sub, tail[..k - 1]) {
          assert parts[..k][0] == parts[0];
          assert parts[..k][1..] == tail[..k - 1];
        }
        assert tail[..|tail|] == tail;
        assert parts[..|parts|] == parts;
        forall k | 0 <= k < |parts| ensures Get(r.value, parts[..k]).Some? && Get(r.value, parts[..k]).value.JDict? {
          if k == 0 { assert parts[..0] == []; }
        }
      }
    }
  }

  /** A graft leaves every path that parts ways with the grafted one as it was. */
  lemma {:induction false} InsertElsewhere(dir: Json, parts: seq<string>, leaf: Json, q: seq<string>)
    requires parts != []
    requires Insert(dir, parts, leaf).Ok?
    requires Diverges(q, parts)
    ensures Get(Insert(dir, parts, leaf).value, q) == Get(dir, q)
    decreases |parts|
  {
    var r := Insert(dir, parts, leaf).value;
    if q[0] == parts[0] && |parts| > 1 {
      var next := if parts[0] in dir.fields then dir.fields[parts[0]] else JDict(map[]);
      InsertElsewhere(next, parts[1..], leaf, q[1..]);
      if parts[0] !in dir.fields {
        assert q[1..] != [];
      }
    }
  }

  /** A path is reported deleted. */
  predicate IsDeleted(changes: Changes, p: string)
  {
    p in changes.kinds && changes.kinds[p] == Deleted
  }

  /**
   * The graft loop over the status dict's keys in order: each deleted path
   * is inserted into the tree; the first failing insertion raises.
   */
  function Graft(tree: Json, order: seq<string>, changes: Changes,
                 url: string -> string, guess: string -> Option<string>): Result<Json, TreeError>
    decreases |order|
  {
    if order == [] then Ok(tree)
    else if IsDeleted(changes, order[0]) then
      match Insert(tree, Split(order[0], '/'), DeletedEntry(order[0], url, guess))
      case Err(e) => Err(e)
      case Ok(t) => Graft(t, order[1..], changes, url, guess)
    else Graft(tree, order[1..], changes, url, guess)
  }

  /**
   * The loop of `file_tree` that grafts the deleted paths, in the dict's
   * key order, each as one insertion.
   */
  method GraftDeleted(tree: Json, changes: Changes, url: string -> string, guess: string -> Option<string>)
    returns (r: Result<Json, TreeError>)
    ensures r == Graft(tree, changes.order, changes, url, guess)
  {
    var cur := tree;
    var i := 0;
    while i < |changes.order|
      invariant 0 <= i <= |changes.order|
      invariant Graft(tree, changes.order, changes, url, guess) == Graft(cur, changes.order[i..], changes, url, guess)
      decreases |changes.order| - i
    {
      var path := changes.order[i];
      assert changes.order[i..][1..] == changes.order[i + 1..];
      if IsDeleted(changes, path) {
        var inserted := Insert(cur, Split(path, '/'), DeletedEntry(path, url, guess));
        if inserted.Err? {
          return Err(inserted.error);
        }
        cur := inserted.value;
      }
      i := i + 1;
    }
    r := Ok(cur);
  }

  /** The graft changes nothing at a path that parts ways with every deleted path. */
  lemma {:induction false} GraftElsewhere(tree: Json, order: seq<string>, changes: Changes,
                                          url: string -> string, guess: string -> Option<string>, q: seq<string>)
    requires Graft(tree, order, changes, url, guess).Ok?
    requires forall i :: 0 <= i < |order| && IsDeleted(changes, order[i]) ==> Diverges(q, Split(order[i], '/'))
    ensures Get(Graft(tree, order, changes, url, guess).value, q) == Get(tree, q)
    decreases |order|
  {
    if order != [] {
      if IsDeleted(changes, order[0]) {
        var parts := Split(order[0], '/');
        var leaf := DeletedEntry(order[0], url, guess);
        var t := Insert(tree, parts, leaf).value;
        InsertElsewhere(tree, parts, leaf, q);
        GraftElsewhere(t, order[1..], changes, url, guess, q);
      } else {
        GraftElsewhere(tree, order[1..], changes, url, guess, q);
      }
    }
  }

  /**
   * After the graft, a deleted path whose segments no later deleted path
   * shares as a prefix (and that shares none of theirs) holds exactly its
   * synthetic entry; a later deleted path that does would overwrite it or
   * add keys to it.
   */
  lemma {:induction false} GraftReaches(tree: Json, order: seq<string>, changes: Changes,
                                        url: string -> string, guess: string -> Option<string>, i: nat)
    requires Graft(tree, order, changes, url, guess).Ok?
    requires i < |order| && IsDeleted(changes, order[i])
    requires forall j :: i < j < |order| && IsDeleted(changes, order[j]) ==>
      Diverges(Split(order[j], '/'), Split(order[i], '/'))
    ensures Get(Graft(tree, order, changes, url, guess).value, Split(order[i], '/')) ==
      Some(DeletedEntry(order[i], url, guess))
    decreases |order|
  {
    var parts := Split(order[i], '/');
    if i == 0 {
      var leaf := DeletedEntry(order[0], url, guess);
      InsertSpec(tree, parts, leaf);
      var t := Insert(tree, parts, leaf).value;
      forall j | 0 <= j < |order[1..]| && IsDeleted(changes, order[1..][j])
        ensures Diverges(parts, Split(order[1..][j], '/'))
      {
        DivergesSymmetric(parts, Split(order[j + 1], '/'));
      }
      GraftElsewhere(t, order[1..], changes, url, guess, parts);
    } else if IsDeleted(changes, order[0]) {
      var t := Insert(tree, Split(order[0], '/'), DeletedEntry(order[0], url, guess)).value;
      GraftReaches(t, order[1..], changes, url, guess, i - 1);
    } else {
      GraftReaches(tree, order[1..], changes, url, guess, i - 1);
    }
  }

  // ---------------------------------------------------------------------------
  // file_tree
  // ---------------------------------------------------------------------------

  /**
   * `file_tree`: parse the status (a parse error fails the whole call), read
   * the ignored set, walk the checkout, then graft the deleted paths.
   */
  function FileTreeOf(root: map<string, FsNode>, statusOutput: string, ignoredOutput: string,
                      url: string -> string, guess: string -> Option<string>): (r: Result<Json, TreeError>)
    ensures (r.Err? && r.error.StatusFailed?) <==> GetChanges(statusOutput).Err?
  {
    match GetChanges(statusOutput)
    case Err(e) => Err(StatusFailed(e))
    case Ok(changes) =>
      var ignored := GetIgnored(ignoredOutput);
      var walked := JDict(WalkDir(Dir(root), [], changes, ignored, url, guess));
      var r := Graft(walked, changes.order, changes, url, guess);
      assert r.Err? ==> r.error == NotADict by {
        GraftErrors(walked, changes.order, changes, url, guess);
      }
      r
  }

  /** The graft can only fail with the cursor's type error. */
  lemma {:induction false} GraftErrors(tree: Json, order: seq<string>, changes: Changes,
                                       url: string -> string, guess: string -> Option<string>)
    ensures Graft(tree, order, changes, url, guess).Err? ==> Graft(tree, order, changes, url, guess).error == NotADict
    decreases |order|
  {
    if order != [] {
      var parts := Split(order[0], '/');
      var leaf := DeletedEntry(order[0], url, guess);
      InsertErrors(tree, parts, leaf);
      if IsDeleted(changes, order[0]) && Insert(tree, parts, leaf).Ok? {
        GraftErrors(Insert(tree, parts, leaf).value, order[1..], changes, url, guess);
      } else if !IsDeleted(changes, order[0]) {
        GraftErrors(tree, order[1..], changes, url, guess);
      }
    }
  }

  /** One insertion can only fail with the cursor's type error. */
  lemma {:induction false} InsertErrors(dir: Json, parts: seq<string>, leaf: Json)
    requires parts != []
    ensures Insert(dir, parts, leaf).Err? ==> Insert(dir, parts, leaf).error == NotADict
    decreases |parts|
  {
    if dir.JDict? && |parts| > 1 {
      var next := if parts[0] in dir.fields then dir.fields[parts[0]] else JDict(map[]);
      InsertErrors(next, parts[1..], leaf);
    }
  }

  /** `file_tree` step by step: the walk, then the graft loop. */
  method BuildFileTree(root: map<string, FsNode>, statusOutput: string, ignoredOutput: string,
                       url: string -> string, guess: string -> Option<string>)
    returns (r: Result<Json, TreeError>)
    ensures r == FileTreeOf(root, statusOutput, ignoredOutput, url, guess)
  {
    var parsed := GetChanges(statusOutput);
    if parsed.Err? {
      return Err(StatusFailed(parsed.error));
    }
    var changes := parsed.value;
    var ignored := GetIgnored(ignoredOutput);
    var walked := FileTreeDir(Dir(root), [], changes, ignored, url, guess);
    r := GraftDeleted(JDict(walked), changes, url, guess);
  }

  /**
   * In the finished tree a deleted path holds its synthetic entry whether or
   * not it is ignored (the graft never consults the ignored set), provided no
   * later deleted path shares a prefix with it.
   */
  lemma FileTreeDeleted(root: map<string, FsNode>, statusOutput: string, ignoredOutput: string,
                        url: string -> string, guess: string -> Option<string>, i: nat)
    requires FileTreeOf(root, statusOutput, ignoredOutput, url, guess).Ok?
    requires var changes := GetChanges(statusOutput).value;
      && i < |changes.order| && IsDeleted(changes, changes.order[i])
      && forall j :: i < j < |changes.order| && IsDeleted(changes, changes.order[j]) ==>
           Diverges(Split(changes.order[j], '/'), Split(changes.order[i], '/'))
    ensures var p := GetChanges(statusOutput).value.order[i];
      Get(FileTreeOf(root, statusOutput, ignoredOutput, url, guess).value, Split(p, '/')) ==
        Some(DeletedEntry(p, url, guess))
  {
    var changes := GetChanges(statusOutput).value;
    var ignored := GetIgnored(ignoredOutput);
    var walked := JDict(WalkDir(Dir(root), [], changes, ignored, url, guess));
    GraftReaches(walked, changes.order, changes, url, guess, i);
  }

  /**
   * In the finished tree a file on disk outside `.git` directories, not
   * ignored, and apart from every deleted path, keeps the entry the walk gave
   * it, with its reported status (or `unchanged`).
   */
  lemma FileTreeWalkedFile(root: map<string, FsNode>, statusOutput: string, ignoredOutput: string,
                           url: string -> string, guess: string -> Option<string>, q: seq<string>, size: nat)
    requires FileTreeOf(root, statusOutput, ignoredOutput, url, guess).Ok?
    requires q != [] && FsGet(Dir(root), q) == Some(File(size))
    requires OutsideGit(q, File(size)) && RelPath(q) !in GetIgnored(ignoredOutput)
    requires var changes := GetChanges(statusOutput).value;
      forall j :: 0 <= j < |changes.order| && IsDeleted(changes, changes.order[j]) ==>
        Diverges(q, Split(changes.order[j], '/'))
    ensures var changes := GetChanges(statusOutput).value;
      Get(FileTreeOf(root, statusOutput, ignoredOutput, url, guess).value, q) ==
        Some(FileEntry(RelPath(q), q[|q| - 1], size, changes, url, guess))
  {
    var changes := GetChanges(statusOutput).value;
    var ignored := GetIgnored(ignoredOutput);
    var walked := JDict(WalkDir(Dir(root), [], changes, ignored, url, guess));
    WalkFile(root, q, size, changes, ignored, url, guess);
    GraftElsewhere(walked, changes.order, changes, url, guess, q);
  }
}
