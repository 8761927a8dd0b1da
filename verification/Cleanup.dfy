/** What is deleted on exit: the keep policy, the removal of the files it names, and the
    pruning of directories left empty, never above the download root. */
module Cleanup {
  import opened Layouts

  datatype Node = File | Folder

  type Tree = map<Path, Node>

  /** `filepath.Dir`: drops the last component, and stays at the top. */
  function Dir(p: Path): Path {
    if p == [] then [] else p[..|p| - 1]
  }

  /** `p` lies strictly below `root`. */
  predicate Below(root: Path, p: Path) {
    root < p
  }

  predicate IsChild(d: Path, p: Path) {
    p != [] && Dir(p) == d
  }

  predicate IsEmpty(t: Tree, d: Path) {
    forall p :: p in t ==> !IsChild(d, p)
  }

  /** Whatever is there hangs off a folder. */
  ghost predicate WellFormed(t: Tree) {
    forall p :: p in t && p != [] ==> Dir(p) in t && t[Dir(p)] == Folder
  }

  /** `os.Remove` takes files and empty folders, except what the system refuses to remove. */
  predicate Removable(t: Tree, locked: set<Path>, p: Path) {
    p in t && p !in locked && (t[p] == File || IsEmpty(t, p))
  }

  function Removed(t: Tree, locked: set<Path>, p: Path): Tree {
    if Removable(t, locked, p) then t - {p} else t
  }

  /** The walk up from a folder to the root, removing what can be removed. */
  function Pruned(t: Tree, locked: set<Path>, root: Path, from: Path): Tree
    requires root <= from
    decreases |from|
  {
    if from == root then t else Pruned(Removed(t, locked, from), locked, root, Dir(from))
  }

  /** One file removed and its folders pruned, if it can be removed. */
  function Cleaned(t: Tree, locked: set<Path>, root: Path, file: Path): Tree
    requires Below(root, file)
  {
    if Removable(t, locked, file) then Pruned(t - {file}, locked, root, Dir(file)) else t
  }

  function CleanedInTurn(t: Tree, locked: set<Path>, root: Path, files: seq<Path>): Tree
    requires forall f :: f in files ==> Below(root, f)
  {
    if files == [] then t
    else Cleaned(CleanedInTurn(t, locked, root, files[..|files| - 1]), locked, root, files[|files| - 1])
  }

  /** Every folder strictly between the root and this file that is left and could be removed
      still has something in it. */
  ghost predicate Tidy(t: Tree, locked: set<Path>, root: Path, file: Path) {
    forall d :: Below(root, d) && d < file && d in t && d !in locked ==> !IsEmpty(t, d)
  }

  /** Some of the tree is gone, none of it changed, nothing was added. */
  ghost predicate Shrunk(t: Tree, u: Tree) {
    forall p :: p in u ==> p in t && u[p] == t[p]
  }

  lemma RemovingKeepsWellFormed(t: Tree, locked: set<Path>, p: Path)
    requires WellFormed(t)
    ensures WellFormed(Removed(t, locked, p)) && Shrunk(t, Removed(t, locked, p))
  {
  }

  lemma DirIsPrefix(p: Path, q: Path)
    ensures Dir(p) <= p
    ensures p != [] && q < p ==> q <= Dir(p)
    ensures q <= Dir(p) && p != [] ==> q < p
  {
  }

  /** The walk removes only folders on its way, strictly below the root, and afterwards none
      of those left is empty unless it cannot be removed. */
  lemma {:induction false} PruningIsConfinedAndComplete(t: Tree, locked: set<Path>, root: Path, from: Path)
    requires WellFormed(t) && root <= from
    ensures var u := Pruned(t, locked, root, from);
            && WellFormed(u) && Shrunk(t, u)
            && (forall p :: p in t && p !in u ==> Below(root, p) && p <= from && p !in locked)
            && (forall d :: Below(root, d) && d <= from && d in u && d !in locked ==> u[d] == File || !IsEmpty(u, d))
    decreases |from|
  {
    if from != root {
      var s := Removed(t, locked, from);
      var u := Pruned(t, locked, root, from);
      RemovingKeepsWellFormed(t, locked, from);
      DirIsPrefix(from, root);
      PruningIsConfinedAndComplete(s, locked, root, Dir(from));
      if from in u && from !in locked && u[from] != File {
        var child :| child in s && IsChild(from, child);
        assert child in u by {
          assert |child| == |from| + 1;
        }
      }
      forall d | Below(root, d) && d <= from && d in u && d !in locked
        ensures u[d] == File || !IsEmpty(u, d)
      {
        if d != from {
          DirIsPrefix(from, d);
        }
      }
    }
  }

  /** Removing one file takes nothing but that file and folders between it and the root, and
      these only if the file goes; it leaves its folders tidy. */
  lemma CleaningOneFile(t: Tree, locked: set<Path>, root: Path, file: Path)
    requires WellFormed(t) && Below(root, file)
    ensures var u := Cleaned(t, locked, root, file);
            && WellFormed(u) && Shrunk(t, u)
            && (forall p :: p in t && p !in u ==>
                  && Below(root, p) && p !in locked && Tidy(u, locked, root, p)
                  && file in t && file !in u && (p == file || (p < file && t[p] == Folder)))
            && (Removable(t, locked, file) ==> file !in u)
  {
    if Removable(t, locked, file) {
      DirIsPrefix(file, root);
      RemovingKeepsWellFormed(t, locked, file);
      PruningIsConfinedAndComplete(t - {file}, locked, root, Dir(file));
      AncestorsAreFolders(t, file);
      var u := Cleaned(t, locked, root, file);
      forall p | p in t && p !in u
        ensures p == file || (p < file && t[p] == Folder)
      {
        DirIsPrefix(file, p);
      }
      forall d | Below(root, d) && d < file && d in u && d !in locked
        ensures !IsEmpty(u, d)
      {
        DirIsPrefix(file, d);
      }
    }
  }

  lemma {:induction false} AncestorsAreFolders(t: Tree, p: Path)
    requires WellFormed(t) && p in t
    ensures forall d :: d < p ==> d in t && t[d] == Folder
    decreases |p|
  {
    if p != [] {
      AncestorsAreFolders(t, Dir(p));
      forall d | d < p
        ensures d in t && t[d] == Folder
      {
        DirIsPrefix(p, d);
        assert d == Dir(p) || d < Dir(p);
      }
    }
  }

  /** Folders that were tidy stay tidy when another file is removed: if one loses its last
      entry, the walk passes it. */
  lemma CleaningKeepsTidy(t: Tree, locked: set<Path>, root: Path, file: Path, other: Path)
    requires WellFormed(t) && Below(root, file) && Tidy(t, locked, root, other)
    ensures Tidy(Cleaned(t, locked, root, file), locked, root, other)
  {
    var u := Cleaned(t, locked, root, file);
    CleaningOneFile(t, locked, root, file);
    forall d | Below(root, d) && d < other && d in u && d !in locked
      ensures !IsEmpty(u, d)
    {
      var child :| child in t && IsChild(d, child);
      if child !in u {
        assert d < child <= file;
      }
    }
  }

  /** For any list of files strictly below the root: nothing outside the root's inside is
      touched, the root itself stays, only listed paths go and folders above listed ones that
      went, unlisted files stay, and above whatever went no folder is left that could be removed
      and is empty. */
  lemma {:induction false} RemovalIsConfinedAndComplete(t: Tree, locked: set<Path>, root: Path, files: seq<Path>)
    requires WellFormed(t) && forall f :: f in files ==> Below(root, f)
    ensures var u := CleanedInTurn(t, locked, root, files);
            && WellFormed(u) && Shrunk(t, u)
            && (forall p :: p in t && p !in u ==>
                  && Below(root, p) && p !in locked && Tidy(u, locked, root, p)
                  && (p in files || (t[p] == Folder && exists f :: f in files && f in t && f !in u && p < f)))
    decreases files
  {
    if files != [] {
      var before, last := files[..|files| - 1], files[|files| - 1];
      RemovalIsConfinedAndComplete(t, locked, root, before);
      var s, u := CleanedInTurn(t, locked, root, before), CleanedInTurn(t, locked, root, files);
      CleaningOneFile(s, locked, root, last);
      assert last in files && forall f :: f in before ==> f in files;
      forall p | p in t && p !in u
        ensures Tidy(u, locked, root, p)
        ensures p in files || (t[p] == Folder && exists f :: f in files && f in t && f !in u && p < f)
      {
        if p !in s {
          CleaningKeepsTidy(s, locked, root, last, p);
        }
      }
    }
  }

  /** Above a path that went, a folder survives exactly when it cannot be removed or still
      holds something. */
  ghost predicate FoldersSettled(t: Tree, u: Tree, locked: set<Path>, root: Path, f: Path) {
    forall d :: Below(root, d) && d < f && d in t ==> (d in u <==> d in locked || exists p :: p in u && IsChild(d, p))
  }

  lemma FolderSurvivesIff(t: Tree, locked: set<Path>, root: Path, files: seq<Path>, f: Path)
    requires WellFormed(t) && forall g :: g in files ==> Below(root, g)
    requires f in t && f !in CleanedInTurn(t, locked, root, files)
    ensures FoldersSettled(t, CleanedInTurn(t, locked, root, files), locked, root, f)
  {
    RemovalIsConfinedAndComplete(t, locked, root, files);
    var u := CleanedInTurn(t, locked, root, files);
    forall d | Below(root, d) && d < f && d in t
      ensures d in u <==> d in locked || exists p :: p in u && IsChild(d, p)
    {
      assert IsEmpty(u, d) <==> !exists p :: p in u && IsChild(d, p);
    }
  }

  lemma RemovalSettlesFolders(t: Tree, locked: set<Path>, root: Path, files: seq<Path>)
    requires WellFormed(t) && forall g :: g in files ==> Below(root, g)
    ensures var u := CleanedInTurn(t, locked, root, files);
            forall p :: p in t && p !in u ==> FoldersSettled(t, u, locked, root, p)
  {
    forall p | p in t && p !in CleanedInTurn(t, locked, root, files)
      ensures FoldersSettled(t, CleanedInTurn(t, locked, root, files), locked, root, p)
    {
      FolderSurvivesIff(t, locked, root, files, p);
    }
  }

  /** A removable file is gone afterwards exactly when it is listed. */
  lemma {:induction false} FileGoesIffListed(t: Tree, locked: set<Path>, root: Path, files: seq<Path>, f: Path)
    requires WellFormed(t) && forall g :: g in files ==> Below(root, g)
    requires f in t && t[f] == File && f !in locked
    ensures f in CleanedInTurn(t, locked, root, files) <==> f !in files
    decreases files
  {
    RemovalIsConfinedAndComplete(t, locked, root, files);
    if f in files {
      var before, last := files[..|files| - 1], files[|files| - 1];
      var s := CleanedInTurn(t, locked, root, before);
      FileGoesIffListed(t, locked, root, before, f);
      RemovalIsConfinedAndComplete(t, locked, root, before);
      CleaningOneFile(s, locked, root, last);
      assert f == last || f in before;
    }
  }

  /** The n-th folder on the way up. */
  function Up(p: Path, n: nat): Path {
    if n == 0 then p else Up(Dir(p), n - 1)
  }

  /** The walk up meets the root, and so ends, exactly when it starts at or below the root;
      from anywhere else it would circle at the top for ever. */
  lemma {:induction false} WalkEndsIffBelowRoot(root: Path, from: Path)
    ensures (exists n: nat :: Up(from, n) == root) <==> root <= from
  {
    if root <= from {
      ClimbTo(root, from);
    }
    forall n: nat | Up(from, n) == root
      ensures root <= from
    {
      UpIsPrefix(from, n);
    }
  }

  lemma {:induction false} ClimbTo(root: Path, from: Path)
    requires root <= from
    ensures Up(from, |from| - |root|) == root
    decreases |from|
  {
    if root != from {
      ClimbTo(root, Dir(from));
    }
  }

  lemma {:induction false} UpIsPrefix(p: Path, n: nat)
    ensures Up(p, n) <= p
    decreases n
  {
    if n > 0 {
      UpIsPrefix(Dir(p), n - 1);
    }
  }

  class FileSystem {
    var tree: Tree
    const locked: set<Path>

    constructor (tree: Tree, locked: set<Path>)
      ensures this.tree == tree && this.locked == locked
    {
      this.tree, this.locked := tree, locked;
    }

    method Remove(p: Path) returns (ok: bool)
      modifies this
      ensures ok == Removable(old(tree), locked, p) && tree == Removed(old(tree), locked, p)
    {
      ok := Removable(tree, locked, p);
      if ok {
        tree := tree - {p};
      }
    }

    method RemoveFiles(files: seq<Path>, savePath: Path)
      requires forall f :: f in files ==> Below(savePath, f)
      modifies this
      ensures tree == CleanedInTurn(old(tree), locked, savePath, files)
    {
      for i := 0 to |files|
        invariant tree == CleanedInTurn(old(tree), locked, savePath, files[..i])
      {
        assert files[..i + 1][..|files[..i + 1]| - 1] == files[..i];
        ghost var before := tree;
        var ok := Remove(files[i]);
        if ok {
          var path := Dir(files[i]);
          assert files[i] in files;
          DirIsPrefix(files[i], savePath);
          while path != savePath
            invariant savePath <= path
            invariant Pruned(tree, locked, savePath, path) == Cleaned(before, locked, savePath, files[i])
            decreases |path|
          {
            var _ := Remove(path);
            path := Dir(path);
          }
        }
      }
      assert files[..|files|] == files;
    }
  }

  const STATE_QUEUED_FOR_CHECKING := 0
  const STATE_CHECKING_FILES := 1

  datatype Config = Config(keepComplete: bool, keepIncomplete: bool, keepFiles: bool)

  /** A file of the torrent: where it is below the root, and how much of it has come. */
  datatype Entry = Entry(path: Path, size: int, downloaded: int)

  /** The rule a user would state. */
  predicate Survives(config: Config, force: bool, state: int, e: Entry) {
    && !force
    && (state == STATE_CHECKING_FILES || state == STATE_QUEUED_FOR_CHECKING || config.keepFiles
        || (if e.downloaded == e.size then config.keepComplete else config.keepIncomplete))
  }

  /** What the keep flags give up. */
  predicate GivenUp(config: Config, force: bool, e: Entry) {
    force || !(if e.downloaded == e.size then config.keepComplete else config.keepIncomplete)
  }

  ghost predicate IsListed(config: Config, force: bool, entries: seq<Entry>, savePath: Path, p: Path) {
    exists i :: 0 <= i < |entries| && p == savePath + entries[i].path && GivenUp(config, force, entries[i])
  }

  /** The files that the keep flags give up and that are there. */
  method FilesToRemove(config: Config, force: bool, entries: seq<Entry>, savePath: Path, fs: FileSystem)
    returns (files: seq<Path>)
    ensures forall p :: p in files <==>
              p in fs.tree
              && exists i ::
                   && 0 <= i < |entries| && p == savePath + entries[i].path
                   && (force
                       || if entries[i].downloaded == entries[i].size then !config.keepComplete else !config.keepIncomplete)
  {
    files := [];
    for i := 0 to |entries|
      invariant forall p :: p in files <==> p in fs.tree && IsListed(config, force, entries[..i], savePath, p)
    {
      var completed := entries[i].downloaded == entries[i].size;
      var p := savePath + entries[i].path;
      if ((!config.keepComplete || !completed) && (!config.keepIncomplete || completed)) || force {
        if p in fs.tree {
          files := files + [p];
        }
      }
      ListedOneMore(config, force, entries, i, savePath);
    }
    assert entries[..|entries|] == entries;
  }

  lemma ListedOneMore(config: Config, force: bool, entries: seq<Entry>, i: nat, savePath: Path)
    requires i < |entries|
    ensures forall p :: IsListed(config, force, entries[..i + 1], savePath, p) <==>
              IsListed(config, force, entries[..i], savePath, p)
              || (p == savePath + entries[i].path && GivenUp(config, force, entries[i]))
  {
    var now, before := entries[..i + 1], entries[..i];
    forall p
      ensures IsListed(config, force, now, savePath, p) <==>
        IsListed(config, force, before, savePath, p)
        || (p == savePath + entries[i].path && GivenUp(config, force, entries[i]))
    {
      assert now[i] == entries[i] && forall k :: 0 <= k < i ==> now[k] == before[k];
    }
  }

  ghost predicate TorrentOnDisk(entries: seq<Entry>, savePath: Path, t: Tree, locked: set<Path>) {
    && WellFormed(t)
    && (forall i :: 0 <= i < |entries| ==> entries[i].path != [] && savePath + entries[i].path !in locked)
    && (forall i :: 0 <= i < |entries| && savePath + entries[i].path in t ==> t[savePath + entries[i].path] == File)
    && (forall i, j :: 0 <= i < j < |entries| ==> entries[i].path != entries[j].path)
  }

  predicate InTorrent(entries: seq<Entry>, savePath: Path, p: Path) {
    exists i :: 0 <= i < |entries| && p == savePath + entries[i].path
  }

  /** What libtorrent's delete flag does: every file of the torrent goes. */
  function Deleted(t: Tree, savePath: Path, entries: seq<Entry>): Tree {
    map p | p in t && !InTorrent(entries, savePath, p) :: t[p]
  }

  /** Each file of the torrent is left exactly when it is kept; every other file and all that
      is outside the root stays. */
  ghost predicate Leaves(t: Tree, u: Tree, entries: seq<Entry>, savePath: Path, kept: Entry -> bool) {
    && (forall i :: 0 <= i < |entries| ==>
          (savePath + entries[i].path in u <==> savePath + entries[i].path in t && kept(entries[i])))
    && (forall p :: p in t && (!Below(savePath, p) || (t[p] == File && !InTorrent(entries, savePath, p))) ==> p in u)
    && Shrunk(t, u)
  }

  lemma DeletionLeavesNone(t: Tree, locked: set<Path>, savePath: Path, entries: seq<Entry>)
    requires TorrentOnDisk(entries, savePath, t, locked)
    ensures Leaves(t, Deleted(t, savePath, entries), entries, savePath, _ => false)
  {
    forall i | 0 <= i < |entries|
      ensures InTorrent(entries, savePath, savePath + entries[i].path) && Below(savePath, savePath + entries[i].path)
    {
    }
  }

  lemma PathsAreDistinct(config: Config, force: bool, entries: seq<Entry>, savePath: Path, t: Tree, locked: set<Path>,
                         i: nat)
    requires TorrentOnDisk(entries, savePath, t, locked) && i < |entries|
    ensures IsListed(config, force, entries, savePath, savePath + entries[i].path) <==> GivenUp(config, force, entries[i])
  {
    forall j | 0 <= j < |entries| && savePath + entries[i].path == savePath + entries[j].path
      ensures i == j
    {
      assert entries[i].path == (savePath + entries[i].path)[|savePath|..];
      assert entries[j].path == (savePath + entries[j].path)[|savePath|..];
    }
  }

  lemma RemovalLeavesKept(t: Tree, locked: set<Path>, savePath: Path, entries: seq<Entry>, config: Config, force: bool,
                          files: seq<Path>)
    requires TorrentOnDisk(entries, savePath, t, locked)
    requires forall p :: p in files <==> p in t && IsListed(config, force, entries, savePath, p)
    ensures forall p :: p in files ==> Below(savePath, p)
    ensures Leaves(t, CleanedInTurn(t, locked, savePath, files), entries, savePath, e => !GivenUp(config, force, e))
  {
    RemovalIsConfinedAndComplete(t, locked, savePath, files);
    forall i | 0 <= i < |entries| && savePath + entries[i].path in t
      ensures savePath + entries[i].path in CleanedInTurn(t, locked, savePath, files)
         <==> !GivenUp(config, force, entries[i])
    {
      PathsAreDistinct(config, force, entries, savePath, t, locked, i);
      FileGoesIffListed(t, locked, savePath, files, savePath + entries[i].path);
    }
  }

  /** Leaves a torrent file on disk exactly when the rule says so, and touches nothing that is
      not below the download root; where it removes files itself, no folder above them is left
      that could be removed and is empty. */
  method RemoveTorrent(config: Config, force: bool, state: int, entries: seq<Entry>, savePath: Path, fs: FileSystem)
    requires TorrentOnDisk(entries, savePath, fs.tree, fs.locked)
    modifies fs
    ensures forall i :: 0 <= i < |entries| ==>
              (savePath + entries[i].path in fs.tree <==>
                 && savePath + entries[i].path in old(fs.tree) && !force
                 && (state == 0 || state == 1 || config.keepFiles
                     || if entries[i].downloaded == entries[i].size then config.keepComplete else config.keepIncomplete))
    ensures forall p :: p in fs.tree ==> p in old(fs.tree) && fs.tree[p] == old(fs.tree)[p]
    ensures forall p :: p in old(fs.tree) && p !in fs.tree ==>
              && savePath < p
              && (old(fs.tree)[p] == Folder || exists i :: 0 <= i < |entries| && p == savePath + entries[i].path)
    ensures !force && (config.keepComplete || config.keepIncomplete) ==>
              forall p :: p in old(fs.tree) && p !in fs.tree ==>
                FoldersSettled(old(fs.tree), fs.tree, fs.locked, savePath, p)
  {
    var delete, files := false, [];
    ghost var before := fs.tree;
    if (state != STATE_CHECKING_FILES && state != STATE_QUEUED_FOR_CHECKING && !config.keepFiles) || force {
      if (!config.keepComplete && !config.keepIncomplete) || force {
        delete := true;
      } else {
        files := FilesToRemove(config, force, entries, savePath, fs);
        RemovalLeavesKept(fs.tree, fs.locked, savePath, entries, config, force, files);
        RemovalSettlesFolders(fs.tree, fs.locked, savePath, files);
      }
    }
    DeletionLeavesNone(fs.tree, fs.locked, savePath, entries);
    if delete {
      fs.tree := Deleted(fs.tree, savePath, entries);
    }
    if delete || |files| > 0 {
      fs.RemoveFiles(files, savePath);
    }
    assert Leaves(before, fs.tree, entries, savePath, e => Survives(config, force, state, e));
  }
}
