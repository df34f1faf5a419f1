/** The file finder of server.go (findFiles, server.go:276-323): a pre-order walk of the
    tree under `pathLogs` that keeps the non-directory entries whose name contains
    `nameFile` and whose modification time lies strictly inside the day `dateLog`. */
module FileFinder {
  import opened Wrappers
  import opened Strings
  import opened Dates

  /** An entry of the host filesystem as os.Lstat, os.ReadDir and filepath.Walk see it.
      A directory's children are kept in the lexical order in which those functions list
      them. `File` is every entry that is not a directory; its modification time is in
      nanoseconds since the Unix epoch and its size in bytes. `opens` says whether os.Open
      succeeds on it, and `readable` whether its whole content can then be read; the walk
      looks at none of size, opens and readable.
      `Unreadable` is an entry whose lstat or directory listing fails. */
  datatype Node =
    | File(name: string, modTime: int, size: nat, opens: bool, readable: bool)
    | Dir(name: string, children: seq<Node>)
    | Unreadable(name: string)

  /** A path as its components below the filesystem root. */
  type Path = seq<string>

  /** The first child with the given name. */
  function ChildNamed(cs: seq<Node>, name: string): (r: Option<Node>)
    ensures r.Some? ==> r.value in cs && r.value.name == name
    ensures r.None? ==> forall i | 0 <= i < |cs| :: cs[i].name != name
  {
    if cs == [] then None
    else if cs[0].name == name then Some(cs[0])
    else ChildNamed(cs[1..], name)
  }

  /** Resolving a path from the root; a missing component, or one under a file or an
      unreadable directory, is an error (None). */
  function Lookup(root: Node, p: Path): Option<Node>
    decreases p
  {
    if p == [] then Some(root)
    else
      match root
      case Dir(_, cs) =>
        (match ChildNamed(cs, p[0])
         case Some(c) => Lookup(c, p[1..])
         case None => None)
      case _ => None
  }

  /** Sibling names are distinct, as in every real directory. */
  predicate WellFormed(n: Node)
    decreases n
  {
    match n
    case Dir(_, cs) =>
      && (forall i, j | 0 <= i < j < |cs| :: cs[i].name != cs[j].name)
      && (forall i | 0 <= i < |cs| :: WellFormed(cs[i]))
    case _ => true
  }

  // ---------------------------------------------------------------------------
  // The walk

  /** One call of the walk function: the path and the entry found there. */
  datatype Visit = Visit(path: Path, node: Node)

  /** filepath.Walk's visiting order: the entry itself, then (for a directory) each
      child's walk in listing order. */
  function Walk(n: Node, path: Path): seq<Visit>
    decreases n
  {
    [Visit(path, n)] + (match n case Dir(_, cs) => WalkChildren(cs, path) case _ => [])
  }

  function WalkChildren(cs: seq<Node>, parent: Path): seq<Visit>
    decreases cs
  {
    if cs == [] then []
    else WalkChildren(cs[..|cs| - 1], parent) + Walk(cs[|cs| - 1], parent + [cs[|cs| - 1].name])
  }

  /** Some visit reports an error, which ends the walk. */
  predicate Broken(vs: seq<Visit>) {
    exists i | 0 <= i < |vs| :: vs[i].node.Unreadable?
  }

  /** The name test of findFiles (server.go:301): an empty nameFile admits every name,
      otherwise `contains` must hold. */
  predicate NameAdmitted(nameFile: string, name: string) {
    !(nameFile != "" && !Contains(name, nameFile))
  }

  /** modTime.After(targetDate) && modTime.Before(nextDay), nextDay being one day later. */
  predicate InWindow(modTime: int, targetDate: int) {
    targetDate < modTime < targetDate + NanosPerDay
  }

  /** The walk function appends this visit's path. */
  predicate Selected(v: Visit, nameFile: string, targetDate: int) {
    v.node.File? && NameAdmitted(nameFile, v.node.name) && InWindow(v.node.modTime, targetDate)
  }

  /** The paths of the selected visits, in visiting order. */
  function Matches(vs: seq<Visit>, nameFile: string, targetDate: int): seq<Path> {
    if vs == [] then []
    else
      var last := vs[|vs| - 1];
      Matches(vs[..|vs| - 1], nameFile, targetDate)
        + (if Selected(last, nameFile, targetDate) then [last.path] else [])
  }

  datatype FindError = BadDate | WalkFailed | NoFiles

  /** What findFiles returns: a date error, a walk error (including a missing root), no
      match, or the matches in walk order. */
  function FindResult(fs: Node, dateLog: string, pathLogs: Path, nameFile: string): Result<seq<Path>, FindError> {
    match ParseDate(dateLog)
    case None => Failure(BadDate)
    case Some(d) =>
      match Lookup(fs, pathLogs)
      case None => Failure(WalkFailed)
      case Some(root) =>
        var vs := Walk(root, pathLogs);
        if Broken(vs) then Failure(WalkFailed)
        else
          var found := Matches(vs, nameFile, MidnightUtc(d));
          if found == [] then Failure(NoFiles) else Success(found)
  }

  // ---------------------------------------------------------------------------
  // The imperative walk

  /** findFiles: parse the day, walk the tree appending each admitted file, then report. */
  method FindFiles(fs: Node, dateLog: string, pathLogs: Path, nameFile: string)
    returns (r: Result<seq<Path>, FindError>)
    ensures r == FindResult(fs, dateLog, pathLogs, nameFile)
  {
    var date := ParseDate(dateLog);
    if date.None? {
      return Failure(BadDate);
    }
    var targetDate := MidnightUtc(date.value);
    var nextDay := targetDate + NanosPerDay;
    var root := Lookup(fs, pathLogs);
    if root.None? {
      return Failure(WalkFailed);
    }
    var foundFiles, failed := WalkFrom(root.value, pathLogs, nameFile, targetDate, nextDay, []);
    if failed {
      return Failure(WalkFailed);
    }
    if |foundFiles| == 0 {
      return Failure(NoFiles);
    }
    assert foundFiles == Matches(Walk(root.value, pathLogs), nameFile, MidnightUtc(date.value)) != [];
    return Success(foundFiles);
  }

  /** filepath.Walk from `n` with findFiles' callback; `found` is the list built so far. */
  method WalkFrom(n: Node, path: Path, nameFile: string, targetDate: int, nextDay: int, found: seq<Path>)
    returns (result: seq<Path>, failed: bool)
    requires nextDay == targetDate + NanosPerDay
    ensures failed <==> Broken(Walk(n, path))
    ensures !failed ==> result == found + Matches(Walk(n, path), nameFile, targetDate)
    decreases n, 1
  {
    match n
    case Unreadable(_) =>
      assert Walk(n, path)[0] == Visit(path, n);
      return found, true;
    case File(name, modTime, _, _, _) =>
      FileWalk(n, path, nameFile, targetDate);
      if nameFile != "" && !Contains(name, nameFile) {
        return found, false;
      }
      if targetDate < modTime && modTime < nextDay {
        return found + [path], false;
      }
      return found, false;
    case Dir(_, cs) =>
      result, failed := WalkDirectory(cs, path, nameFile, targetDate, nextDay, found);
      DirWalk(n, path, nameFile, targetDate);
  }

  /** The walk over a directory's entries, in listing order, stopping at the first error. */
  method WalkDirectory(cs: seq<Node>, path: Path, nameFile: string, targetDate: int, nextDay: int, found: seq<Path>)
    returns (result: seq<Path>, failed: bool)
    requires nextDay == targetDate + NanosPerDay
    ensures failed <==> Broken(WalkChildren(cs, path))
    ensures !failed ==> result == found + Matches(WalkChildren(cs, path), nameFile, targetDate)
    decreases cs, 0
  {
    result := found;
    var i := 0;
    while i < |cs|
      invariant 0 <= i <= |cs|
      invariant !Broken(WalkChildren(cs[..i], path))
      invariant result == found + Matches(WalkChildren(cs[..i], path), nameFile, targetDate)
    {
      var c := cs[i];
      var sub, subFailed := WalkFrom(c, path + [c.name], nameFile, targetDate, nextDay, result);
      WalkDirectoryStep(cs, i, path, nameFile, targetDate);
      if subFailed {
        return sub, true;
      }
      result := sub;
      i := i + 1;
    }
    assert cs[..i] == cs;
    failed := false;
  }

  // ---------------------------------------------------------------------------
  // Lemmas about the walk and the selection

  /** The walk from a file is that one visit, selected or not. */
  lemma FileWalk(n: Node, path: Path, nameFile: string, targetDate: int)
    requires n.File?
    ensures !Broken(Walk(n, path))
    ensures Matches(Walk(n, path), nameFile, targetDate)
         == if Selected(Visit(path, n), nameFile, targetDate) then [path] else []
  {
    assert Walk(n, path) == [Visit(path, n)];
  }

  /** The walk from a directory breaks, and matches, as the walk over its entries does. */
  lemma DirWalk(n: Node, path: Path, nameFile: string, targetDate: int)
    requires n.Dir?
    ensures Broken(Walk(n, path)) <==> Broken(WalkChildren(n.children, path))
    ensures Matches(Walk(n, path), nameFile, targetDate) == Matches(WalkChildren(n.children, path), nameFile, targetDate)
  {
    BrokenAppend([Visit(path, n)], WalkChildren(n.children, path));
    MatchesAppend([Visit(path, n)], WalkChildren(n.children, path), nameFile, targetDate);
    assert Matches([Visit(path, n)], nameFile, targetDate) == [];
  }

  /** One entry of the directory loop: entry i's walk is added to the walk of the entries
      before it; if it breaks, so does the walk of the whole directory. */
  lemma WalkDirectoryStep(cs: seq<Node>, i: nat, path: Path, nameFile: string, targetDate: int)
    requires i < |cs| && !Broken(WalkChildren(cs[..i], path))
    ensures var w := Walk(cs[i], path + [cs[i].name]);
      && (Broken(w) ==> Broken(WalkChildren(cs, path)))
      && (Broken(WalkChildren(cs[..i + 1], path)) <==> Broken(w))
      && Matches(WalkChildren(cs[..i + 1], path), nameFile, targetDate)
         == Matches(WalkChildren(cs[..i], path), nameFile, targetDate) + Matches(w, nameFile, targetDate)
  {
    var w := Walk(cs[i], path + [cs[i].name]);
    WalkChildrenStep(cs, i, path);
    BrokenAppend(WalkChildren(cs[..i], path), w);
    if Broken(w) {
      WalkChildrenPrefix(cs, i + 1, path);
      BrokenPrefix(WalkChildren(cs[..i + 1], path), WalkChildren(cs, path));
    }
    MatchesAppend(WalkChildren(cs[..i], path), w, nameFile, targetDate);
  }

  lemma WalkChildrenStep(cs: seq<Node>, i: nat, parent: Path)
    requires i < |cs|
    ensures WalkChildren(cs[..i + 1], parent)
         == WalkChildren(cs[..i], parent) + Walk(cs[i], parent + [cs[i].name])
  {
    assert cs[..i + 1][..i] == cs[..i];
  }

  lemma {:induction false} WalkChildrenPrefix(cs: seq<Node>, k: nat, parent: Path)
    requires k <= |cs|
    ensures WalkChildren(cs[..k], parent) <= WalkChildren(cs, parent)
    decreases |cs| - k
  {
    if k < |cs| {
      var m := |cs| - 1;
      assert cs[..m][..k] == cs[..k];
      WalkChildrenPrefix(cs[..m], k, parent);
      assert cs[..m] == cs[..|cs| - 1];
    } else {
      assert cs[..k] == cs;
    }
  }

  lemma BrokenAppend(a: seq<Visit>, b: seq<Visit>)
    ensures Broken(a + b) <==> Broken(a) || Broken(b)
  {
    if Broken(a) {
      var i :| 0 <= i < |a| && a[i].node.Unreadable?;
      assert (a + b)[i] == a[i];
    }
    if Broken(b) {
      var i :| 0 <= i < |b| && b[i].node.Unreadable?;
      assert (a + b)[|a| + i] == b[i];
    }
    if Broken(a + b) {
      var i :| 0 <= i < |a + b| && (a + b)[i].node.Unreadable?;
      if i < |a| { assert a[i] == (a + b)[i]; } else { assert b[i - |a|] == (a + b)[i]; }
    }
  }

  lemma BrokenPrefix(a: seq<Visit>, b: seq<Visit>)
    requires a <= b && Broken(a)
    ensures Broken(b)
  {
    var i :| 0 <= i < |a| && a[i].node.Unreadable?;
    assert b[i] == a[i];
  }

  lemma {:induction false} MatchesAppend(a: seq<Visit>, b: seq<Visit>, nameFile: string, targetDate: int)
    ensures Matches(a + b, nameFile, targetDate) == Matches(a, nameFile, targetDate) + Matches(b, nameFile, targetDate)
    decreases |b|
  {
    if b != [] {
      var m := |b| - 1;
      assert (a + b)[..|a + b| - 1] == a + b[..m];
      MatchesAppend(a, b[..m], nameFile, targetDate);
    } else {
      assert a + b == a;
    }
  }

  /** The name test: an empty nameFile lets every name through; a non-empty one exactly
      the names that contain it (the guard compensates for `contains` refusing ""). */
  lemma NameFilter(nameFile: string, name: string)
    ensures nameFile == "" ==> NameAdmitted(nameFile, name)
    ensures nameFile != "" ==> (NameAdmitted(nameFile, name) <==> Occurs(name, nameFile))
  {
  }

  /** The window is open at both ends: a file stamped exactly at midnight of the day, or
      exactly at midnight of the next day, is not found; every instant strictly between is. */
  lemma WindowIsOpenDay(d: Date, modTime: int)
    requires ValidDate(d)
    ensures InWindow(modTime, MidnightUtc(d)) <==> MidnightUtc(d) < modTime < MidnightUtc(NextDate(d))
    ensures !InWindow(MidnightUtc(d), MidnightUtc(d))
    ensures !InWindow(MidnightUtc(NextDate(d)), MidnightUtc(d))
  {
    NextMidnight(d);
  }

  /** The matches are exactly the paths of the selected visits. */
  lemma {:induction false} MatchesMembers(vs: seq<Visit>, nameFile: string, targetDate: int, p: Path)
    ensures p in Matches(vs, nameFile, targetDate)
        <==> exists i | 0 <= i < |vs| :: vs[i].path == p && Selected(vs[i], nameFile, targetDate)
  {
    if vs != [] {
      var m := |vs| - 1;
      MatchesMembers(vs[..m], nameFile, targetDate, p);
      if p in Matches(vs[..m], nameFile, targetDate) {
        var i :| 0 <= i < m && vs[..m][i].path == p && Selected(vs[..m][i], nameFile, targetDate);
        assert vs[i] == vs[..m][i];
      }
      if exists i | 0 <= i < |vs| :: vs[i].path == p && Selected(vs[i], nameFile, targetDate) {
        var i :| 0 <= i < |vs| && vs[i].path == p && Selected(vs[i], nameFile, targetDate);
        if i < m {
          assert vs[..m][i] == vs[i];
        }
      }
    }
  }

  /** `a` is `b` with some elements left out, order kept. */
  predicate IsSubsequence<T(==)>(a: seq<T>, b: seq<T>)
    decreases |b|
  {
    a == [] ||
    (b != [] &&
      ((a[|a| - 1] == b[|b| - 1] && IsSubsequence(a[..|a| - 1], b[..|b| - 1]))
       || IsSubsequence(a, b[..|b| - 1])))
  }

  function Paths(vs: seq<Visit>): (ps: seq<Path>)
    ensures |ps| == |vs| && forall i | 0 <= i < |vs| :: ps[i] == vs[i].path
  {
    if vs == [] then [] else Paths(vs[..|vs| - 1]) + [vs[|vs| - 1].path]
  }

  /** The matches keep the walk's order. */
  lemma {:induction false} MatchesInWalkOrder(vs: seq<Visit>, nameFile: string, targetDate: int)
    ensures IsSubsequence(Matches(vs, nameFile, targetDate), Paths(vs))
  {
    if vs != [] {
      var m := |vs| - 1;
      MatchesInWalkOrder(vs[..m], nameFile, targetDate);
      var a := Matches(vs, nameFile, targetDate);
      assert Paths(vs)[..m] == Paths(vs[..m]);
      if Selected(vs[m], nameFile, targetDate) {
        assert a[..|a| - 1] == Matches(vs[..m], nameFile, targetDate);
      } else if a != [] {
        assert a == Matches(vs[..m], nameFile, targetDate);
      }
    }
  }

  /** Every path of the walk from `path` extends `path`. */
  lemma {:induction false} WalkUnder(n: Node, path: Path, i: nat)
    requires i < |Walk(n, path)|
    ensures path <= Walk(n, path)[i].path
    decreases n, 1
  {
    if i > 0 {
      match n
      case Dir(_, cs) => WalkChildrenUnder(cs, path, i - 1);
    }
  }

  lemma {:induction false} WalkChildrenUnder(cs: seq<Node>, parent: Path, i: nat)
    requires i < |WalkChildren(cs, parent)|
    ensures parent < WalkChildren(cs, parent)[i].path
    decreases cs, 0
  {
    var m := |cs| - 1;
    var front := WalkChildren(cs[..m], parent);
    if i < |front| {
      WalkChildrenUnder(cs[..m], parent, i);
    } else {
      WalkUnder(cs[m], parent + [cs[m].name], i - |front|);
    }
  }

  lemma {:induction false} LookupAppend(root: Node, p: Path, q: Path)
    requires Lookup(root, p).Some?
    ensures Lookup(root, p + q) == Lookup(Lookup(root, p).value, q)
    decreases p
  {
    if p != [] {
      match root
      case Dir(_, cs) =>
        var c := ChildNamed(cs, p[0]).value;
        assert (p + q)[0] == p[0] && (p + q)[1..] == p[1..] + q;
        LookupAppend(c, p[1..], q);
        assert p + q != [];
        assert ChildNamed(cs, (p + q)[0]) == Some(c);
        assert Lookup(root, p + q) == Lookup(c, (p + q)[1..]);
        assert Lookup(root, p) == Lookup(c, p[1..]);
    } else {
      assert p + q == q;
    }
  }

  lemma ChildNamedUnique(cs: seq<Node>, i: nat)
    requires i < |cs|
    requires forall j, k | 0 <= j < k < |cs| :: cs[j].name != cs[k].name
    ensures ChildNamed(cs, cs[i].name) == Some(cs[i])
  {
    if i > 0 {
      ChildNamedUnique(cs[1..], i - 1);
    }
  }

  /** In a well-formed tree, every visit of the walk from the entry at `path` names that
      very entry: the walk never reports a path that resolves elsewhere. */
  lemma {:induction false} WalkResolves(fs: Node, n: Node, path: Path, i: nat)
    requires WellFormed(n) && Lookup(fs, path) == Some(n)
    requires i < |Walk(n, path)|
    ensures Lookup(fs, Walk(n, path)[i].path) == Some(Walk(n, path)[i].node)
    decreases n, 1
  {
    if i > 0 {
      match n
      case Dir(_, cs) => WalkChildrenResolve(fs, n, cs, path, i - 1);
    }
  }

  lemma {:induction false} WalkChildrenResolve(fs: Node, dir: Node, cs: seq<Node>, parent: Path, i: nat)
    requires dir.Dir? && WellFormed(dir) && Lookup(fs, parent) == Some(dir)
    requires cs <= dir.children
    requires i < |WalkChildren(cs, parent)|
    ensures Lookup(fs, WalkChildren(cs, parent)[i].path) == Some(WalkChildren(cs, parent)[i].node)
    decreases cs, 0
  {
    var m := |cs| - 1;
    var front := WalkChildren(cs[..m], parent);
    if i < |front| {
      WalkChildrenResolve(fs, dir, cs[..m], parent, i);
    } else {
      var c := cs[m];
      assert c == dir.children[m];
      ChildNamedUnique(dir.children, m);
      LookupAppend(fs, parent, [c.name]);
      assert Lookup(dir, [c.name]) == Lookup(c, []);
      WalkResolves(fs, c, parent + [c.name], i - |front|);
    }
  }

  lemma {:induction false} LookupWellFormed(fs: Node, p: Path)
    requires WellFormed(fs) && Lookup(fs, p).Some?
    ensures WellFormed(Lookup(fs, p).value)
    decreases p
  {
    if p != [] {
      var c := ChildNamed(fs.children, p[0]).value;
      LookupWellFormed(c, p[1..]);
    }
  }

  /** findFiles succeeds with a non-empty list, and each path it lists lies under
      `pathLogs` and names a non-directory entry of the tree whose name passes the name
      test and whose time lies strictly inside the day; every such entry met by the walk
      is listed, in walk order. */
  lemma FindFilesFound(fs: Node, dateLog: string, pathLogs: Path, nameFile: string)
    requires WellFormed(fs)
    requires FindResult(fs, dateLog, pathLogs, nameFile).Success?
    ensures var found := FindResult(fs, dateLog, pathLogs, nameFile).value;
      var d := ParseDate(dateLog).value;
      var root := Lookup(fs, pathLogs).value;
      && found != []
      && IsSubsequence(found, Paths(Walk(root, pathLogs)))
      && (forall p | p in found ::
            && pathLogs <= p
            && Lookup(fs, p).Some?
            && var e := Lookup(fs, p).value;
               e.File? && NameAdmitted(nameFile, e.name) && InWindow(e.modTime, MidnightUtc(d)))
      && (forall i | 0 <= i < |Walk(root, pathLogs)| ::
            Selected(Walk(root, pathLogs)[i], nameFile, MidnightUtc(d)) ==> Walk(root, pathLogs)[i].path in found)
  {
    var found := FindResult(fs, dateLog, pathLogs, nameFile).value;
    var d := ParseDate(dateLog).value;
    var root := Lookup(fs, pathLogs).value;
    var vs := Walk(root, pathLogs);
    MatchesInWalkOrder(vs, nameFile, MidnightUtc(d));
    LookupWellFormed(fs, pathLogs);
    forall p | p in found
      ensures pathLogs <= p && Lookup(fs, p).Some?
      ensures var e := Lookup(fs, p).value;
        e.File? && NameAdmitted(nameFile, e.name) && InWindow(e.modTime, MidnightUtc(d))
    {
      MatchesMembers(vs, nameFile, MidnightUtc(d), p);
      var i :| 0 <= i < |vs| && vs[i].path == p && Selected(vs[i], nameFile, MidnightUtc(d));
      WalkUnder(root, pathLogs, i);
      WalkResolves(fs, root, pathLogs, i);
    }
    forall i | 0 <= i < |vs| && Selected(vs[i], nameFile, MidnightUtc(d))
      ensures vs[i].path in found
    {
      MatchesMembers(vs, nameFile, MidnightUtc(d), vs[i].path);
    }
  }

  /** findFiles fails, with no list, exactly when the date does not parse, the walk meets
      an error (a missing root included), or nothing matches. */
  lemma FindFilesFails(fs: Node, dateLog: string, pathLogs: Path, nameFile: string)
    ensures var r := FindResult(fs, dateLog, pathLogs, nameFile);
      && (r == Failure(BadDate) <==> ParseDate(dateLog).None?)
      && (r == Failure(WalkFailed) <==>
            ParseDate(dateLog).Some? && (Lookup(fs, pathLogs).None? || Broken(Walk(Lookup(fs, pathLogs).value, pathLogs))))
      && (r.Success? ==> r.value != [])
  {
  }
}
