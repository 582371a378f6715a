/**
  `DirectoryManager` (src/org/ezze/utils/io/DirectoryManager.java): creating a
  directory with its missing ancestors, finding the closest existing
  directory, removing a directory tree, and trimming trailing backslashes.

  Paths are already normalised (as `java.io.File` normalises them): a flag for
  absolute paths and the name segments. The disk maps absolute paths to what
  is there; relative names are resolved against the working directory, as
  every `java.io.File` access does. `mkdir` and `delete` ask an oracle.
*/
module Directories {
  import opened JavaLang

  datatype Path = Path(absolute: bool, segments: seq<string>)

  /** `new File("")`: the empty name. */
  const EmptyPath := Path(false, [])

  /**
    `File.getParent`: drops the last segment; a relative name of one segment
    and the root have no parent.
  */
  function Parent(p: Path): (r: Option<Path>)
    ensures r.Some? ==> |p.segments| > 0 && r.value.absolute == p.absolute && r.value.segments == p.segments[..|p.segments| - 1]
    ensures r.None? <==> |p.segments| == 0 || (!p.absolute && |p.segments| == 1)
  {
    if |p.segments| == 0 || (!p.absolute && |p.segments| == 1) then None
    else Some(Path(p.absolute, p.segments[..|p.segments| - 1]))
  }

  /** `File.getAbsoluteFile` for a working directory given by its segments. */
  function Absolute(cwd: Path, p: Path): (r: Path)
    ensures r.absolute
    ensures p.absolute ==> r == p
  {
    if p.absolute then p else Path(true, cwd.segments + p.segments)
  }

  /** `p`, its parent, its parent's parent, and so on. */
  function ParentChain(p: Path): (r: seq<Path>)
    ensures |r| > 0 && r[0] == p
    decreases |p.segments|
  {
    match Parent(p)
    case None => [p]
    case Some(q) => [p] + ParentChain(q)
  }

  datatype Kind = Directory | RegularFile

  /** What exists, by absolute path. */
  type Disk = map<Path, Kind>

  predicate IsDirectory(disk: Disk, p: Path) {
    p in disk && disk[p] == Directory
  }

  /** `x` is on the disk; the trigger that keeps `Consistent` from chasing parents forever. */
  predicate Entry(disk: Disk, x: Path) {
    x in disk
  }

  /** A real file system: absolute keys, and every entry's parent is a directory. */
  ghost predicate Consistent(disk: Disk) {
    forall x :: Entry(disk, x) ==> x.absolute && (Parent(x).Some? ==> IsDirectory(disk, Parent(x).value))
  }

  /** `disk'` only lost entries. */
  ghost predicate Shrinks(disk: Disk, disk': Disk) {
    forall x :: x in disk' ==> x in disk && disk'[x] == disk[x]
  }

  // ---------------------------------------------------------------------
  // Creating

  /** `File.mkdir`: needs a missing entry, an existing parent directory and the oracle's consent. */
  function Mkdir(disk: Disk, a: Path, canMkdir: Path -> bool): (r: (bool, Disk))
    requires a.absolute
    ensures r.0 <==> a !in disk && canMkdir(a) && (Parent(a).None? || IsDirectory(disk, Parent(a).value))
    ensures r.0 ==> r.1 == disk[a := Directory]
    ensures !r.0 ==> r.1 == disk
  {
    if a !in disk && canMkdir(a) && (Parent(a).None? || IsDirectory(disk, Parent(a).value))
    then (true, disk[a := Directory]) else (false, disk)
  }

  /** `File.mkdir` keeps a real file system real. */
  lemma MkdirKeepsConsistent(disk: Disk, a: Path, canMkdir: Path -> bool)
    requires a.absolute && Consistent(disk)
    ensures Consistent(Mkdir(disk, a, canMkdir).1)
  {
    var d := Mkdir(disk, a, canMkdir).1;
    forall x | Entry(d, x)
      ensures x.absolute && (Parent(x).Some? ==> IsDirectory(d, Parent(x).value))
    {
      if x != a { assert Entry(disk, x); }
    }
  }

  /** Resolving commutes with taking the parent, wherever the name has one. */
  lemma AbsoluteParent(cwd: Path, p: Path)
    requires Parent(p).Some?
    ensures Parent(Absolute(cwd, p)) == Some(Absolute(cwd, Parent(p).value))
  {
    if !p.absolute {
      assert (cwd.segments + p.segments)[..|cwd.segments + p.segments| - 1]
          == cwd.segments + p.segments[..|p.segments| - 1];
    }
  }

  /** `p` and its ancestors, resolved. */
  function ChainSet(cwd: Path, p: Path): (r: set<Path>)
    ensures Absolute(cwd, p) in r
    ensures forall x :: x in r ==> |x.segments| <= |Absolute(cwd, p).segments|
    decreases |p.segments|
  {
    match Parent(p)
    case None => {Absolute(cwd, p)}
    case Some(q) =>
      AbsoluteParent(cwd, p);
      {Absolute(cwd, p)} + ChainSet(cwd, q)
  }

  /**
    `createDirectory` can succeed for `p` on this disk: `p` is already a
    directory, or it is absent, may be made, and its parent can be created.
  */
  predicate Creatable(disk: Disk, cwd: Path, p: Path, canMkdir: Path -> bool)
    decreases |p.segments|
  {
    || IsDirectory(disk, Absolute(cwd, p))
    || (&& Absolute(cwd, p) !in disk && canMkdir(Absolute(cwd, p))
        && Parent(p).Some? && Creatable(disk, cwd, Parent(p).value, canMkdir))
  }

  /** In a consistent disk every ancestor of a directory is a directory. */
  lemma {:induction false} ChainOfDirectory(disk: Disk, cwd: Path, p: Path)
    requires Consistent(disk) && IsDirectory(disk, Absolute(cwd, p))
    ensures forall x :: x in ChainSet(cwd, p) ==> IsDirectory(disk, x)
    decreases |p.segments|
  {
    match Parent(p)
    case None =>
    case Some(q) =>
      AbsoluteParent(cwd, p);
      ChainOfDirectory(disk, cwd, q);
  }

  /**
    `createDirectory`: false for a missing or empty name; true with nothing
    changed for an existing directory; otherwise creates the parent first
    (failing when there is none) and then the directory itself.
  */
  function CreateDirectory(disk: Disk, cwd: Path, name: Option<Path>, canMkdir: Path -> bool): (r: (bool, Disk))
    ensures name.None? || name.value == EmptyPath ==> !r.0 && r.1 == disk
    ensures name.Some? && name.value != EmptyPath && IsDirectory(disk, Absolute(cwd, name.value)) ==>
      r.0 && r.1 == disk
    ensures name.Some? && !IsDirectory(disk, Absolute(cwd, name.value)) && Parent(name.value).None? ==>
      !r.0 && r.1 == disk
    ensures r.0 ==> IsDirectory(r.1, Absolute(cwd, name.value))
    ensures forall x :: x in disk ==> x in r.1 && r.1[x] == disk[x]
    ensures forall x :: x in r.1 && x !in disk ==> r.1[x] == Directory && x in ChainSet(cwd, name.value)
    ensures name.Some? && name.value != EmptyPath ==> (r.0 <==> Creatable(disk, cwd, name.value, canMkdir))
    ensures forall x :: x in r.1 && x !in disk ==> canMkdir(x)
    decreases if name.Some? then |name.value.segments| else 0
  {
    if name.None? || name.value == EmptyPath then (false, disk)
    else
      var p := name.value;
      var a := Absolute(cwd, p);
      if IsDirectory(disk, a) then
        (true, disk)
      else
        match Parent(p)
        case None => (false, disk)
        case Some(q) =>
          assert q != EmptyPath;
          var (parentOk, disk1) := CreateDirectory(disk, cwd, Some(q), canMkdir);
          AbsoluteParent(cwd, p);
          assert a !in ChainSet(cwd, q);
          if !parentOk then (false, disk1)
          else Mkdir(disk1, a, canMkdir)
  }

  /**
    `createDirectory` on a real file system leaves a real file system, and
    when it succeeds the name and all its ancestors are directories.
  */
  lemma {:induction false} CreateDirectoryKeepsConsistent(disk: Disk, cwd: Path, name: Option<Path>, canMkdir: Path -> bool)
    requires Consistent(disk)
    ensures Consistent(CreateDirectory(disk, cwd, name, canMkdir).1)
    ensures name.Some? && CreateDirectory(disk, cwd, name, canMkdir).0 ==>
      forall x :: x in ChainSet(cwd, name.value) ==> IsDirectory(CreateDirectory(disk, cwd, name, canMkdir).1, x)
    decreases if name.Some? then |name.value.segments| else 0
  {
    if name.None? || name.value == EmptyPath {
    } else {
      var p := name.value;
      var a := Absolute(cwd, p);
      if IsDirectory(disk, a) {
        ChainOfDirectory(disk, cwd, p);
      } else {
        match Parent(p)
        case None =>
        case Some(q) =>
          var (parentOk, disk1) := CreateDirectory(disk, cwd, Some(q), canMkdir);
          CreateDirectoryKeepsConsistent(disk, cwd, Some(q), canMkdir);
          AbsoluteParent(cwd, p);
          if parentOk {
            MkdirKeepsConsistent(disk1, a, canMkdir);
          }
      }
    }
  }

  // ---------------------------------------------------------------------
  // Finding

  /**
    `findClosestExistingDirectory`: walks from the absolute path up through
    its parents and stops at the first existing directory.
  */
  method FindClosestExistingDirectory(disk: Disk, cwd: Path, file: Path) returns (r: Option<Path>)
    ensures var chain := ParentChain(Absolute(cwd, file));
      && (r.None? <==> forall i :: 0 <= i < |chain| ==> !IsDirectory(disk, chain[i]))
      && (r.Some? ==> exists k :: 0 <= k < |chain| && chain[k] == r.value && IsDirectory(disk, r.value)
                                 && forall j :: 0 <= j < k ==> !IsDirectory(disk, chain[j]))
  {
    ghost var chain := ParentChain(Absolute(cwd, file));
    ghost var k := 0;
    var closest: Option<Path> := Some(Absolute(cwd, file));
    var found := false;
    while closest.Some? && !found
      invariant 0 <= k <= |chain|
      invariant closest.Some? ==> k < |chain| && chain[k..] == ParentChain(closest.value)
      invariant closest.None? ==> k == |chain|
      invariant found ==> closest.Some? && IsDirectory(disk, closest.value)
      invariant forall j :: 0 <= j < k ==> !IsDirectory(disk, chain[j])
      decreases |chain| - k, if found then 0 else 1
    {
      if IsDirectory(disk, closest.value) {
        found := true;
      } else {
        assert chain[k] == closest.value;
        closest := Parent(closest.value);
        k := k + 1;
      }
    }
    if found {
      return closest;
    }
    return None;
  }

  // ---------------------------------------------------------------------
  // Removing

  /** `p` lies strictly below `d`. */
  ghost predicate IsUnder(p: Path, d: Path) {
    p.absolute == d.absolute && |d.segments| < |p.segments| && p.segments[..|d.segments|] == d.segments
  }

  /** The platform lets every entry below `d` go. */
  ghost predicate ContentsDeletable(disk: Disk, d: Path, canDelete: Path -> bool) {
    forall x :: x in disk && IsUnder(x, d) ==> canDelete(x)
  }

  /** The platform lets `d` and everything below it go. */
  ghost predicate TreeDeletable(disk: Disk, d: Path, canDelete: Path -> bool) {
    canDelete(d) && ContentsDeletable(disk, d, canDelete)
  }

  /** A child's tree lies inside its parent's. */
  lemma ChildTreeDeletable(disk: Disk, d: Path, c: Path, canDelete: Path -> bool)
    requires Parent(c) == Some(d) && c in disk && ContentsDeletable(disk, d, canDelete)
    ensures TreeDeletable(disk, c, canDelete)
  {
    assert IsUnder(c, d);
    forall x | x in disk && IsUnder(x, c) ensures canDelete(x) {
      assert x.segments[..|d.segments|] == x.segments[..|c.segments|][..|d.segments|];
      assert IsUnder(x, d);
    }
  }

  /** The entries directly inside `d`: what `listFiles` returns. */
  function Children(disk: Disk, d: Path): set<Path> {
    set p | p in disk.Keys && Parent(p) == Some(d)
  }

  ghost function Below(disk: Disk, d: Path): set<Path> {
    set p | p in disk && IsUnder(p, d)
  }

  /** The child of `d` on the way down to `x`. */
  function Toward(x: Path, d: Path): Path
    requires |d.segments| < |x.segments|
  {
    Path(x.absolute, x.segments[..|d.segments| + 1])
  }

  /** `File.delete`: a regular file, or an empty directory, that the oracle lets go. */
  function Delete(disk: Disk, p: Path, canDelete: Path -> bool): (r: (bool, Disk))
    ensures r.0 <==> p in disk && canDelete(p) && (disk[p] == RegularFile || Children(disk, p) == {})
    ensures r.1 == if r.0 then disk - {p} else disk
  {
    if p in disk && canDelete(p) && (disk[p] == RegularFile || Children(disk, p) == {})
    then (true, disk - {p}) else (false, disk)
  }

  lemma DeleteKeepsConsistent(disk: Disk, p: Path, canDelete: Path -> bool)
    requires Consistent(disk)
    ensures Consistent(Delete(disk, p, canDelete).1)
  {
    var (ok, disk') := Delete(disk, p, canDelete);
    if ok {
      forall x | x in disk' && Parent(x).Some?
        ensures IsDirectory(disk', Parent(x).value)
      {
      }
    }
  }

  lemma SubsetCard<T>(a: set<T>, b: set<T>)
    requires a <= b
    ensures |a| <= |b|
  {
    if a != {} {
      var x :| x in a;
      SubsetCard(a - {x}, b - {x});
    }
  }

  /** Recursing into a child works on strictly fewer entries. */
  lemma BelowChildSmaller(disk: Disk, disk': Disk, d: Path, c: Path)
    requires Shrinks(disk, disk') && c in disk && Parent(c) == Some(d)
    ensures |Below(disk', c)| < |Below(disk, d)|
  {
    assert c in Below(disk, d);
    forall x | x in Below(disk', c) ensures x in Below(disk, d) - {c} {
      assert x.segments[..|d.segments|] == x.segments[..|c.segments|][..|d.segments|];
    }
    SubsetCard(Below(disk', c), Below(disk, d) - {c});
  }

  /** Nothing is left below a directory that a consistent disk no longer holds. */
  lemma {:induction false} NothingBelowMissing(disk: Disk, d: Path, x: Path)
    requires Consistent(disk) && d !in disk && x in disk
    ensures !IsUnder(x, d)
    decreases |x.segments|
  {
    if IsUnder(x, d) {
      var q := Parent(x).value;
      if |q.segments| > |d.segments| {
        assert q.segments[..|d.segments|] == x.segments[..|d.segments|];
        NothingBelowMissing(disk, d, q);
      }
    }
  }

  /**
    `removeDirectory`: removes the directory's contents and, only when that
    fully succeeded, the directory itself. True exactly when the directory
    existed and is gone afterwards.
  */
  method RemoveDirectory(disk: Disk, cwd: Path, name: Option<Path>, canDelete: Path -> bool)
    returns (ok: bool, disk': Disk)
    ensures Shrinks(disk, disk')
    ensures name.None? || name.value == EmptyPath ==> !ok && disk' == disk
    ensures name.Some? && name.value != EmptyPath ==>
      var d := Absolute(cwd, name.value);
      && (ok <==> IsDirectory(disk, d) && d !in disk')
      && (!IsDirectory(disk, d) ==> disk' == disk)
      && (forall x :: x in disk && x !in disk' ==> x == d || IsUnder(x, d))
      && (forall x :: x in disk && x !in disk' ==> canDelete(x))
      && (Consistent(disk) ==> Consistent(disk') && (ok ==> forall x :: x in disk' ==> !IsUnder(x, d)))
    ensures name.Some? && name.value != EmptyPath ==>
      var d := Absolute(cwd, name.value);
      Consistent(disk) && IsDirectory(disk, d) ==> (ok <==> TreeDeletable(disk, d, canDelete))
    decreases if name.Some? then |Below(disk, Absolute(cwd, name.value))| else 0, 2, 0
  {
    if name.None? || name.value == EmptyPath {
      return false, disk;
    }
    var d := Absolute(cwd, name.value);
    var filesOk, disk1 := RemoveDirectoryFiles(disk, cwd, name, _ => true, canDelete);
    assert IsDirectory(disk, d) ==> d in disk1 by {
      if IsDirectory(disk, d) {
        assert !Lost(disk, disk1, d);
      }
    }
    forall x | x in disk && x !in disk1 ensures IsUnder(x, d) {
      assert Lost(disk, disk1, x);
    }
    if !filesOk {
      return false, disk1;
    }
    assert Children(disk1, d) == {} by {
      forall c | c in disk1 ensures Parent(c) != Some(d) {
        assert c in disk;
      }
    }
    var deleted := Delete(disk1, d, canDelete);
    ok, disk' := deleted.0, deleted.1;
    if Consistent(disk) {
      DeleteKeepsConsistent(disk1, d, canDelete);
      if ok {
        forall x | x in disk' ensures !IsUnder(x, d) {
          NothingBelowMissing(disk', d, x);
        }
      }
    }
  }

  /** The entries `listFiles(filter)` returns for directory `d`. */
  function Listing(disk: Disk, d: Path, accept: Path -> bool): set<Path> {
    set c | c in disk.Keys && Parent(c) == Some(d) && accept(c)
  }

  /** Every entry lost between `disk` and `disk'` lies below one of the entries `done` of `d`. */
  ghost predicate RemovedWithin(disk: Disk, disk': Disk, d: Path, done: set<Path>) {
    forall x :: Lost(disk, disk', x) ==> IsUnder(x, d) && Toward(x, d) in done
  }

  /** `x` was on `disk` and is not on `disk'`. */
  predicate Lost(disk: Disk, disk': Disk, x: Path) {
    x in disk && x !in disk'
  }

  /** Every regular file among `done` that the platform lets go is gone. */
  ghost predicate DeletableFilesGone(disk: Disk, disk': Disk, done: set<Path>, canDelete: Path -> bool) {
    forall c :: c in done && c in disk && disk[c] == RegularFile && canDelete(c) ==> c !in disk'
  }

  /** None of `items` is left on the disk. */
  ghost predicate AllGone(disk: Disk, items: set<Path>) {
    forall c :: c in items ==> c !in disk
  }

  /**
    One pass of the loop in `removeDirectoryFiles`: a directory goes through
    `removeDirectory`, anything else through `delete`.
  */
  method RemoveEntry(disk: Disk, cwd: Path, c: Path, canDelete: Path -> bool) returns (removed: bool, disk': Disk)
    requires c in disk && c.absolute
    ensures Shrinks(disk, disk')
    ensures removed <==> c !in disk'
    ensures disk[c] == RegularFile ==> (removed <==> canDelete(c))
    ensures forall x :: x in disk && x !in disk' ==> x == c || IsUnder(x, c)
    ensures forall x :: x in disk && x !in disk' ==> canDelete(x)
    ensures Consistent(disk) ==> Consistent(disk')
    ensures Consistent(disk) && TreeDeletable(disk, c, canDelete) ==> removed
    decreases |Below(disk, Absolute(cwd, c))|, 3, 0
  {
    if disk[c] == Directory {
      removed, disk' := RemoveDirectory(disk, cwd, Some(c), canDelete);
    } else {
      var deleted := Delete(disk, c, canDelete);
      removed, disk' := deleted.0, deleted.1;
      if Consistent(disk) {
        DeleteKeepsConsistent(disk, c, canDelete);
      }
    }
  }

  /**
    `removeDirectoryFiles`: false for a missing or empty name or a name that
    is not a directory. Otherwise removes every accepted entry (subdirectories
    with `removeDirectory`, files with `delete`), carrying on past failures,
    and returns the conjunction of the results: true exactly when every
    accepted entry is gone.
  */
  method RemoveDirectoryFiles(disk: Disk, cwd: Path, name: Option<Path>, accept: Path -> bool,
                              canDelete: Path -> bool)
    returns (ok: bool, disk': Disk)
    ensures name.None? || name.value == EmptyPath || !IsDirectory(disk, Absolute(cwd, name.value)) ==>
      !ok && disk' == disk
    ensures name.Some? && name.value != EmptyPath && IsDirectory(disk, Absolute(cwd, name.value)) ==>
      var d := Absolute(cwd, name.value);
      && (ok <==> AllGone(disk', Listing(disk, d, accept)))
      && ListedProgress(disk, disk', d, Listing(disk, d, accept), canDelete)
      && (Consistent(disk) && ContentsDeletable(disk, d, canDelete) ==> ok)
    decreases if name.Some? then |Below(disk, Absolute(cwd, name.value))| else 0, 1, 0
  {
    if name.None? || name.value == EmptyPath {
      return false, disk;
    }
    var d := Absolute(cwd, name.value);
    if !IsDirectory(disk, d) {
      return false, disk;
    }
    var listed := Listing(disk, d, accept);
    if Consistent(disk) && ContentsDeletable(disk, d, canDelete) {
      forall c | c in listed ensures TreeDeletable(disk, c, canDelete) {
        ChildTreeDeletable(disk, d, c, canDelete);
      }
    }
    ok, disk' := RemoveListed(disk, cwd, d, listed, canDelete);
  }

  /** What the loop of `removeDirectoryFiles` keeps true once the entries `done` of `d` are handled. */
  ghost predicate ListedProgress(disk: Disk, disk': Disk, d: Path, done: set<Path>, canDelete: Path -> bool) {
    && Shrinks(disk, disk')
    && RemovedWithin(disk, disk', d, done)
    && DeletableFilesGone(disk, disk', done, canDelete)
    && (forall x :: Lost(disk, disk', x) ==> canDelete(x))
    && (Consistent(disk) ==> Consistent(disk'))
  }

  /** Handling entry `c` of `d` and then the rest of the entries keeps the progress. */
  lemma ListedCompose(disk: Disk, disk1: Disk, disk2: Disk, d: Path, c: Path, rest: set<Path>,
                      removed: bool, canDelete: Path -> bool)
    requires Parent(c) == Some(d) && c !in rest && c in disk
    requires forall x :: x in rest ==> x in disk && Parent(x) == Some(d)
    requires Shrinks(disk, disk1)
    requires removed <==> c !in disk1
    requires disk[c] == RegularFile ==> (removed <==> canDelete(c))
    requires forall x :: x in disk && x !in disk1 ==> x == c || IsUnder(x, c)
    requires forall x :: x in disk && x !in disk1 ==> canDelete(x)
    requires Consistent(disk) ==> Consistent(disk1)
    requires ListedProgress(disk1, disk2, d, rest, canDelete)
    ensures ListedProgress(disk, disk2, d, rest + {c}, canDelete)
    ensures AllGone(disk2, rest + {c}) <==> AllGone(disk2, rest) && removed
  {
    forall x | Lost(disk, disk2, x) ensures IsUnder(x, d) && Toward(x, d) in rest + {c} {
      if x in disk1 {
        assert Lost(disk1, disk2, x);
      } else {
        assert x.segments[..|d.segments|] == x.segments[..|c.segments|][..|d.segments|];
        assert Toward(x, d) == c;
      }
    }
    if c in disk1 {
      assert Toward(c, d) == c;
      assert !Lost(disk1, disk2, c);
    }
  }

  /**
    The loop of `removeDirectoryFiles` over the listed entries `todo` of `d`:
    one entry is handled, then the rest.
  */
  method RemoveListed(disk: Disk, cwd: Path, d: Path, todo: set<Path>, canDelete: Path -> bool)
    returns (ok: bool, disk': Disk)
    requires d.absolute && forall c :: c in todo ==> c in disk && Parent(c) == Some(d)
    ensures ok <==> AllGone(disk', todo)
    ensures ListedProgress(disk, disk', d, todo, canDelete)
    ensures Consistent(disk) && (forall c :: c in todo ==> TreeDeletable(disk, c, canDelete)) ==> ok
    decreases |Below(disk, d)|, 0, |todo|
  {
    if todo == {} {
      return true, disk;
    }
    var c :| c in todo;
    BelowChildSmaller(disk, disk, d, c);
    var removed, disk1 := RemoveEntry(disk, cwd, c, canDelete);
    forall x | x in todo - {c} ensures x in disk1 && Parent(x) == Some(d) {
      assert !IsUnder(x, c);
    }
    SubsetCard(Below(disk1, d), Below(disk, d));
    if Consistent(disk) && forall c :: c in todo ==> TreeDeletable(disk, c, canDelete) {
      forall x | x in todo - {c} ensures TreeDeletable(disk1, x, canDelete) {
        assert TreeDeletable(disk, x, canDelete);
      }
    }
    var restOk, disk2 := RemoveListed(disk1, cwd, d, todo - {c}, canDelete);
    ListedCompose(disk, disk1, disk2, d, c, todo - {c}, removed, canDelete);
    assert todo - {c} + {c} == todo;
    ok := removed && restOk;
    disk' := disk2;
  }

  // ---------------------------------------------------------------------
  // Trailing backslashes

  /** The loop of `truncateSlashes`: drops backslashes from the end while there are any. */
  function TrimBackslashes(s: string): (r: string)
    ensures |r| <= |s| && r == s[..|r|]
    ensures |r| == 0 || r[|r| - 1] != '\\'
    ensures forall i :: |r| <= i < |s| ==> s[i] == '\\'
  {
    if |s| > 0 && s[|s| - 1] == '\\' then TrimBackslashes(s[..|s| - 1]) else s
  }

  /** `truncateSlashes`: `null` stays `null`; forward slashes are kept. */
  function TruncateSlashes(name: Option<string>): (r: Option<string>)
    ensures r.None? <==> name.None?
    ensures r.Some? ==> |r.value| <= |name.value| && r.value == name.value[..|r.value|]
    ensures r.Some? ==> |r.value| == 0 || r.value[|r.value| - 1] != '\\'
    ensures r.Some? ==> forall i :: |r.value| <= i < |name.value| ==> name.value[i] == '\\'
    ensures r.Some? && |name.value| > 0 && name.value[|name.value| - 1] == '/' ==> r == name
  {
    match name
    case None => None
    case Some(s) => Some(TrimBackslashes(s))
  }

  /** Trimming twice trims nothing more. */
  lemma TruncateSlashesIdempotent(name: Option<string>)
    ensures TruncateSlashes(TruncateSlashes(name)) == TruncateSlashes(name)
  {
  }
}
