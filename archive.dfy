/** The zip download of server.go: addFileToZip (server.go:216-251), addDirToZip
    (server.go:253-272) and handleDownload (server.go:188-214). A member is named by the
    last element of its path alone, and the archive is finished (closed) only when every
    listed path was added without error. */
module Archive {
  import opened Wrappers
  import opened FileFinder

  datatype Compression = Store | Deflate

  /** One archive member as the writer records it: its name and how its data is compressed. */
  datatype Member = Member(name: string, compression: Compression)

  /** filepath.Base of a path; the root path is "/". */
  function Base(p: Path): string {
    if p == [] then "/" else p[|p| - 1]
  }

  /** strings.ReplaceAll(s, "\\", "/"). */
  function ReplaceBackslashes(s: string): string {
    seq(|s|, i requires 0 <= i < |s| => if s[i] == '\\' then '/' else s[i])
  }

  /** The member name addFileToZip gives a path: its base name, backslashes made slashes. */
  function MemberName(p: Path): string {
    ReplaceBackslashes(Base(p))
  }

  /** The member name is the path's last element with every backslash turned into a slash,
      character for character, and it holds no backslash. */
  lemma MemberNameOfPath(p: Path)
    requires p != []
    ensures |MemberName(p)| == |p[|p| - 1]|
    ensures forall i | 0 <= i < |MemberName(p)| ::
      MemberName(p)[i] == (if p[|p| - 1][i] == '\\' then '/' else p[|p| - 1][i])
    ensures '\\' !in MemberName(p)
  {
  }

  // ---------------------------------------------------------------------------
  // The writer

  /** archive/zip treats a member name ending in '/' as a directory. */
  predicate IsDirName(name: string) {
    |name| > 0 && name[|name| - 1] == '/'
  }

  /** The method archive/zip records for a header: Store for a directory name, else the
      one asked for. */
  function HeaderMethod(name: string, compression: Compression): Compression {
    if IsDirName(name) then Store else compression
  }

  /** archive/zip's Writer as the handler uses it: the members written so far, and whether
      the central directory has been written (Close). */
  class ZipWriter {
    var members: seq<Member>
    var closed: bool

    constructor ()
      ensures members == [] && !closed
    {
      members := [];
      closed := false;
    }

    /** CreateHeader: starts a new member; its data follows. A name ending in '/' is a
        directory entry: it is stored with Store whatever was asked, and its writer refuses
        any data (`dataAllowed` is false). */
    method CreateHeader(name: string, compression: Compression) returns (dataAllowed: bool)
      modifies this
      ensures members == old(members) + [Member(name, HeaderMethod(name, compression))]
      ensures dataAllowed == !IsDirName(name)
      ensures closed == old(closed)
    {
      var recorded := compression;
      dataAllowed := true;
      if |name| > 0 && name[|name| - 1] == '/' {
        recorded := Store;
        dataAllowed := false;
      }
      members := members + [Member(name, recorded)];
    }

    /** Close: writes the central directory, which makes the archive readable. */
    method Close()
      modifies this
      ensures members == old(members) && closed
    {
      closed := true;
    }
  }

  // ---------------------------------------------------------------------------
  // What each operation writes

  /** The members an operation writes, and whether it returned without error. */
  datatype Outcome = Outcome(members: seq<Member>, ok: bool)

  /** Running `b` after `a`, as the Go code does: an error returns at once. */
  function Then(a: Outcome, b: Outcome): Outcome {
    if a.ok then Outcome(a.members + b.members, b.ok) else a
  }

  /** The header addFileToZip writes for a path: its member name, asking for Deflate. */
  function FileMember(path: Path): Member {
    Member(MemberName(path), HeaderMethod(MemberName(path), Deflate))
  }

  /** addFileToZip on the entry found at `path`. Opening a missing entry, one whose lstat
      fails or a file that os.Open refuses fails before anything is written; anything that
      opens gets its header, and the copy succeeds only for a readable file whose data the
      member accepts: any data for an ordinary name, none for a name ending in '/'. Reading
      a directory fails. */
  function FileOutcome(entry: Option<Node>, path: Path): Outcome {
    match entry
    case Some(File(_, _, size, opens, readable)) =>
      if opens then Outcome([FileMember(path)], readable && (size == 0 || !IsDirName(MemberName(path))))
      else Outcome([], false)
    case Some(Dir(_, _)) => Outcome([FileMember(path)], false)
    case _ => Outcome([], false)
  }

  /** addDirToZip once os.ReadDir has listed the directory `n`. */
  function DirListing(n: Node, path: Path): Outcome
    requires n.Dir?
    decreases n, 0
  {
    EntriesOutcome(n.children, path)
  }

  /** The entries in listing order, the first error ending the loop. */
  function EntriesOutcome(cs: seq<Node>, path: Path): Outcome
    decreases cs, 2
  {
    if cs == [] then Outcome([], true)
    else
      var c := cs[|cs| - 1];
      Then(EntriesOutcome(cs[..|cs| - 1], path), EntryOutcome(c, path + [c.name]))
  }

  /** One listed entry: a directory is recursed into, anything else goes through
      addFileToZip. */
  function EntryOutcome(c: Node, p: Path): Outcome
    decreases c, 1
  {
    if c.Dir? then DirListing(c, p) else FileOutcome(Some(c), p)
  }

  /** addDirToZip on the entry found at `path`: a listing error writes nothing. */
  function DirOutcome(entry: Option<Node>, path: Path): Outcome {
    match entry
    case Some(Dir(_, _)) => DirListing(entry.value, path)
    case _ => Outcome([], false)
  }

  // ---------------------------------------------------------------------------
  // The imperative operations

  /** addFileToZip: open, stat, create the member header, copy the data. */
  method AddFileToZip(zw: ZipWriter, fs: Node, filePath: Path) returns (ok: bool)
    modifies zw
    ensures zw.members == old(zw.members) + FileOutcome(Lookup(fs, filePath), filePath).members
    ensures ok == FileOutcome(Lookup(fs, filePath), filePath).ok
    ensures zw.closed == old(zw.closed)
  {
    var file := Lookup(fs, filePath);
    if file.None? || file.value.Unreadable? || (file.value.File? && !file.value.opens) {
      return false;
    }
    var name := ReplaceBackslashes(Base(filePath));
    var dataAllowed := zw.CreateHeader(name, Deflate);
    if file.value.Dir? {
      return false;
    }
    ok := file.value.readable && (file.value.size == 0 || dataAllowed);
  }

  /** The entry at a path, or a stand-in when there is none; it bounds the recursion of
      addDirToZip. */
  function SubtreeAt(fs: Node, p: Path): Node {
    match Lookup(fs, p)
    case Some(n) => n
    case None => Unreadable("")
  }

  /** addDirToZip: list the directory and add each entry, recursing into directories.
      `archivePath` is accepted but never used, so every member is named by its base name. */
  method AddDirToZip(zw: ZipWriter, fs: Node, dirPath: Path, archivePath: Path) returns (ok: bool)
    requires WellFormed(fs)
    modifies zw
    ensures zw.members == old(zw.members) + DirOutcome(Lookup(fs, dirPath), dirPath).members
    ensures ok == DirOutcome(Lookup(fs, dirPath), dirPath).ok
    ensures zw.closed == old(zw.closed)
    decreases SubtreeAt(fs, dirPath), 3
  {
    var entries := Lookup(fs, dirPath);
    if entries.None? || !entries.value.Dir? {
      return false;
    }
    ok := AddEntries(zw, fs, dirPath, entries.value);
  }

  /** The loop of addDirToZip over the listing of `dir`, found at `dirPath`. */
  method AddEntries(zw: ZipWriter, fs: Node, dirPath: Path, dir: Node) returns (ok: bool)
    requires WellFormed(fs) && Lookup(fs, dirPath) == Some(dir) && dir.Dir?
    modifies zw
    ensures zw.members == old(zw.members) + EntriesOutcome(dir.children, dirPath).members
    ensures ok == EntriesOutcome(dir.children, dirPath).ok
    ensures zw.closed == old(zw.closed)
    decreases SubtreeAt(fs, dirPath), 2
  {
    ghost var before := zw.members;
    var i := 0;
    while i < |dir.children|
      invariant 0 <= i <= |dir.children|
      invariant zw.members == before + EntriesOutcome(dir.children[..i], dirPath).members
      invariant EntriesOutcome(dir.children[..i], dirPath).ok
      invariant zw.closed == old(zw.closed)
    {
      var entryOk := AddNextEntry(zw, fs, dirPath, dir, i, before);
      if !entryOk {
        return false;
      }
      i := i + 1;
    }
    assert dir.children[..i] == dir.children;
    ok := true;
  }

  /** One turn of addDirToZip's loop: after entries 0 to i-1 were added (the writer
      holding `before` and their members), entries 0 to i have been added, or the whole
      loop has failed. */
  method AddNextEntry(zw: ZipWriter, fs: Node, dirPath: Path, dir: Node, i: nat, ghost before: seq<Member>)
    returns (ok: bool)
    requires WellFormed(fs) && Lookup(fs, dirPath) == Some(dir) && dir.Dir? && i < |dir.children|
    requires EntriesOutcome(dir.children[..i], dirPath).ok
    requires zw.members == before + EntriesOutcome(dir.children[..i], dirPath).members
    modifies zw
    ensures ok ==> EntriesOutcome(dir.children[..i + 1], dirPath).ok
    ensures ok ==> zw.members == before + EntriesOutcome(dir.children[..i + 1], dirPath).members
    ensures !ok ==> !EntriesOutcome(dir.children, dirPath).ok
    ensures !ok ==> zw.members == before + EntriesOutcome(dir.children, dirPath).members
    ensures zw.closed == old(zw.closed)
    decreases SubtreeAt(fs, dirPath), 1
  {
    ghost var prefix := EntriesOutcome(dir.children[..i], dirPath);
    ghost var step := EntryOutcome(dir.children[i], dirPath + [dir.children[i].name]);
    ok := AddEntryToZip(zw, fs, dirPath, dir, i);
    EntriesStepOk(dir.children, i, dirPath);
    assert zw.members == before + (prefix.members + step.members);
    if !ok {
      EntriesFailureSticks(dir.children, i + 1, dirPath);
    }
  }

  /** The body of addDirToZip's loop for the i-th entry of `dir`: join its name to the
      directory's path, then recurse into a directory or add anything else as a file. */
  method AddEntryToZip(zw: ZipWriter, fs: Node, dirPath: Path, dir: Node, i: nat) returns (ok: bool)
    requires WellFormed(fs) && Lookup(fs, dirPath) == Some(dir) && dir.Dir? && i < |dir.children|
    modifies zw
    ensures zw.members == old(zw.members) + EntryOutcome(dir.children[i], dirPath + [dir.children[i].name]).members
    ensures ok == EntryOutcome(dir.children[i], dirPath + [dir.children[i].name]).ok
    ensures zw.closed == old(zw.closed)
    decreases SubtreeAt(fs, dirPath), 0
  {
    var e := dir.children[i];
    var fullFilePath := dirPath + [e.name];
    var ap := fullFilePath;
    ChildLookup(fs, dirPath, i);
    assert SubtreeAt(fs, fullFilePath) == e;
    if e.Dir? {
      ok := AddDirToZip(zw, fs, fullFilePath, ap);
    } else {
      ok := AddFileToZip(zw, fs, fullFilePath);
    }
  }

  /** The reply of handleDownload: a finished archive, or the failure answered by
      http.Error with this message (which it sends followed by a newline). `written` is the writer's member list at that moment,
      the archive left without its central directory; how much of it was flushed to the
      client before the error text is not modelled. */
  datatype Reply =
    | Zip(members: seq<Member>)
    | InternalError(message: string, written: seq<Member>)

  /** What handleDownload does with one listed path: "file" and "dir" add it, any other
      type adds nothing. */
  function AddOutcome(fs: Node, f: Path, typef: string): Outcome {
    if typef == "file" then FileOutcome(Lookup(fs, f), f)
    else if typef == "dir" then DirOutcome(Lookup(fs, f), f)
    else Outcome([], true)
  }

  function DownloadOutcome(fs: Node, files: seq<Path>, typef: string): Outcome {
    if files == [] then Outcome([], true)
    else Then(DownloadOutcome(fs, files[..|files| - 1], typef), AddOutcome(fs, files[|files| - 1], typef))
  }

  function ErrorMessage(typef: string): string {
    if typef == "file" then "failed to add file to zip" else "failed to add Dir to zip"
  }

  function DownloadReply(fs: Node, files: seq<Path>, typef: string): Reply {
    var o := DownloadOutcome(fs, files, typef);
    if o.ok then Zip(o.members) else InternalError(ErrorMessage(typef), o.members)
  }

  /** handleDownload: one writer for the response, each path added in order, the first
      failure answered with a 500; Close runs only after the whole loop. */
  method HandleDownload(fs: Node, files: seq<Path>, typef: string) returns (reply: Reply, zw: ZipWriter)
    requires typef == "dir" ==> WellFormed(fs)
    ensures reply == DownloadReply(fs, files, typef)
    ensures zw.members == DownloadOutcome(fs, files, typef).members
    ensures zw.closed <==> reply.Zip?
  {
    zw := new ZipWriter();
    var i := 0;
    while i < |files|
      invariant 0 <= i <= |files|
      invariant zw.members == DownloadOutcome(fs, files[..i], typef).members
      invariant DownloadOutcome(fs, files[..i], typef).ok
      invariant !zw.closed
    {
      var f := files[i];
      assert files[..i + 1][..i] == files[..i];
      if typef == "file" {
        var ok := AddFileToZip(zw, fs, f);
        if !ok {
          DownloadFailureSticks(fs, files, typef, i + 1);
          reply := InternalError("failed to add file to zip", zw.members);
          return;
        }
      } else if typef == "dir" {
        var ok := AddDirToZip(zw, fs, f, f);
        if !ok {
          DownloadFailureSticks(fs, files, typef, i + 1);
          reply := InternalError("failed to add Dir to zip", zw.members);
          return;
        }
      }
      i := i + 1;
    }
    assert files[..i] == files;
    zw.Close();
    reply := Zip(zw.members);
  }

  // ---------------------------------------------------------------------------
  // Lemmas

  /** In a well-formed tree the i-th entry of a directory is found at its joined path. */
  lemma ChildLookup(fs: Node, dirPath: Path, i: nat)
    requires WellFormed(fs) && Lookup(fs, dirPath).Some? && Lookup(fs, dirPath).value.Dir?
    requires i < |Lookup(fs, dirPath).value.children|
    ensures var dir := Lookup(fs, dirPath).value;
      Lookup(fs, dirPath + [dir.children[i].name]) == Some(dir.children[i])
  {
    var dir := Lookup(fs, dirPath).value;
    LookupWellFormed(fs, dirPath);
    ChildNamedUnique(dir.children, i);
    LookupAppend(fs, dirPath, [dir.children[i].name]);
    assert Lookup(dir, [dir.children[i].name]) == Lookup(dir.children[i], []);
  }

  lemma EntriesStep(cs: seq<Node>, i: nat, path: Path)
    requires i < |cs|
    ensures EntriesOutcome(cs[..i + 1], path) == Then(EntriesOutcome(cs[..i], path), EntryOutcome(cs[i], path + [cs[i].name]))
  {
    assert cs[..i + 1][..i] == cs[..i];
  }

  /** While no entry has failed, one more entry appends its members and decides the result. */
  lemma EntriesStepOk(cs: seq<Node>, i: nat, path: Path)
    requires i < |cs| && EntriesOutcome(cs[..i], path).ok
    ensures var step := EntryOutcome(cs[i], path + [cs[i].name]);
      EntriesOutcome(cs[..i + 1], path) == Outcome(EntriesOutcome(cs[..i], path).members + step.members, step.ok)
  {
    EntriesStep(cs, i, path);
  }

  lemma {:induction false} EntriesFailureSticks(cs: seq<Node>, k: nat, path: Path)
    requires k <= |cs| && !EntriesOutcome(cs[..k], path).ok
    ensures EntriesOutcome(cs, path) == EntriesOutcome(cs[..k], path)
    decreases |cs| - k
  {
    if k < |cs| {
      var m := |cs| - 1;
      assert cs[..m][..k] == cs[..k];
      EntriesFailureSticks(cs[..m], k, path);
    } else {
      assert cs[..k] == cs;
    }
  }

  lemma {:induction false} DownloadFailureSticks(fs: Node, files: seq<Path>, typef: string, k: nat)
    requires k <= |files| && !DownloadOutcome(fs, files[..k], typef).ok
    ensures DownloadOutcome(fs, files, typef) == DownloadOutcome(fs, files[..k], typef)
    decreases |files| - k
  {
    if k < |files| {
      var m := |files| - 1;
      assert files[..m][..k] == files[..k];
      DownloadFailureSticks(fs, files[..m], typef, k);
    } else {
      assert files[..k] == files;
    }
  }

  /** The archive is finished exactly when every listed path is added without error. */
  lemma {:induction false} DownloadSucceeds(fs: Node, files: seq<Path>, typef: string)
    ensures DownloadReply(fs, files, typef).Zip?
        <==> forall i | 0 <= i < |files| :: AddOutcome(fs, files[i], typef).ok
  {
    if files != [] {
      var m := |files| - 1;
      DownloadSucceeds(fs, files[..m], typef);
      assert forall i | 0 <= i < m :: files[..m][i] == files[i];
    }
  }

  /** A failed download stops at the first path whose addition fails: every earlier path
      was added in full, that path's partial output is the last thing written, and nothing
      after it is attempted. */
  lemma {:induction false} DownloadStopsAtFirstFailure(fs: Node, files: seq<Path>, typef: string)
    requires DownloadReply(fs, files, typef).InternalError?
    ensures DownloadReply(fs, files, typef).message == ErrorMessage(typef)
    ensures exists k | 0 <= k < |files| ::
      && DownloadOutcome(fs, files[..k], typef).ok
      && !AddOutcome(fs, files[k], typef).ok
      && DownloadReply(fs, files, typef).written
         == DownloadOutcome(fs, files[..k], typef).members + AddOutcome(fs, files[k], typef).members
  {
    var k := FirstFailure(fs, files, typef);
    assert DownloadOutcome(fs, files[..k], typef).ok && !AddOutcome(fs, files[k], typef).ok;
  }

  /** The index of the first path whose addition fails, in a download that fails. */
  lemma {:induction false} FirstFailure(fs: Node, files: seq<Path>, typef: string) returns (k: nat)
    requires !DownloadOutcome(fs, files, typef).ok
    ensures k < |files| && DownloadOutcome(fs, files[..k], typef).ok && !AddOutcome(fs, files[k], typef).ok
    ensures DownloadOutcome(fs, files, typef).members
         == DownloadOutcome(fs, files[..k], typef).members + AddOutcome(fs, files[k], typef).members
  {
    var m := |files| - 1;
    if DownloadOutcome(fs, files[..m], typef).ok {
      k := m;
    } else {
      k := FirstFailure(fs, files[..m], typef);
      assert files[..m][..k] == files[..k] && files[..m][k] == files[k];
    }
  }

  /** With type "file" a finished archive holds exactly one member per listed path, in
      order, named by its base name and compressed with Deflate, except that a name ending
      in '/' is stored, which succeeds only for an empty file; every listed path is a file
      that opens and reads. */
  lemma {:induction false} FileArchive(fs: Node, files: seq<Path>)
    requires DownloadReply(fs, files, "file").Zip?
    ensures var ms := DownloadReply(fs, files, "file").members;
      && |ms| == |files|
      && forall i | 0 <= i < |files| ::
           && ms[i] == Member(MemberName(files[i]), if IsDirName(MemberName(files[i])) then Store else Deflate)
           && Lookup(fs, files[i]).Some? && Lookup(fs, files[i]).value.File?
           && Lookup(fs, files[i]).value.opens && Lookup(fs, files[i]).value.readable
           && (IsDirName(MemberName(files[i])) ==> Lookup(fs, files[i]).value.size == 0)
  {
    if files != [] {
      var m := |files| - 1;
      FileArchive(fs, files[..m]);
      assert forall i | 0 <= i < m :: files[..m][i] == files[i];
    }
  }

  /** Any type other than "file" and "dir" yields a finished, empty archive. */
  lemma {:induction false} UnknownTypeGivesEmptyArchive(fs: Node, files: seq<Path>, typef: string)
    requires typef != "file" && typef != "dir"
    ensures DownloadReply(fs, files, typef) == Zip([])
  {
    if files != [] {
      UnknownTypeGivesEmptyArchive(fs, files[..|files| - 1], typef);
    }
  }

  /** A directory listed with type "file" opens, gets a member, and then fails to copy. */
  lemma DirectoryAsFile(fs: Node, f: Path)
    requires Lookup(fs, f).Some? && Lookup(fs, f).value.Dir?
    ensures AddOutcome(fs, f, "file") == Outcome([FileMember(f)], false)
  {
  }

  /** A file whose base name ends in a backslash gets a member name ending in '/', which
      archive/zip takes for a directory: the member is stored, and the copy fails unless the
      file is empty. */
  lemma TrailingBackslashStored(fs: Node, f: Path)
    requires f != [] && |f[|f| - 1]| > 0 && f[|f| - 1][|f[|f| - 1]| - 1] == '\\'
    requires Lookup(fs, f).Some? && Lookup(fs, f).value.File?
    requires Lookup(fs, f).value.opens && Lookup(fs, f).value.readable
    ensures MemberName(f)[|MemberName(f)| - 1] == '/'
    ensures AddOutcome(fs, f, "file") == Outcome([Member(MemberName(f), Store)], Lookup(fs, f).value.size == 0)
  {
    MemberNameOfPath(f);
  }

  /** A file that lstat sees but os.Open refuses (a log readable only by its group, say) does
      not break the walk, so findFiles can select it; addFileToZip then fails before writing
      anything, and a "file" download of it is a 500 with nothing in the writer. */
  lemma UnopenableFile(fs: Node, f: Path)
    requires Lookup(fs, f).Some? && Lookup(fs, f).value.File? && !Lookup(fs, f).value.opens
    ensures !Broken(Walk(Lookup(fs, f).value, f))
    ensures AddOutcome(fs, f, "file") == Outcome([], false)
    ensures DownloadReply(fs, [f], "file") == InternalError("failed to add file to zip", [])
  {
    FileWalk(Lookup(fs, f).value, f, "", 0);
    assert [f][..0] == [];
    assert DownloadOutcome(fs, [f], "file") == Outcome([], false);
  }

  /** addDirToZip names members by base name only: a file in a subdirectory and a file of
      the same name beside it become two members with the same name. */
  lemma DirArchiveIsFlat()
    ensures DirOutcome(Some(Dir("logs", [Dir("a", [File("x.log", 0, 0, true, true)]), File("x.log", 0, 0, true, true)])), ["var", "logs"])
         == Outcome([Member("x.log", Deflate), Member("x.log", Deflate)], true)
  {
    var file := File("x.log", 0, 0, true, true);
    var inner := Dir("a", [file]);
    var cs := [inner, file];
    var m := Member("x.log", Deflate);
    assert MemberName(["var", "logs", "a", "x.log"]) == "x.log";
    assert MemberName(["var", "logs", "x.log"]) == "x.log";
    assert [file][..0] == [] && [inner][..0] == [] && cs[..1] == [inner];
    assert ["var", "logs"] + ["a"] == ["var", "logs", "a"];
    assert ["var", "logs", "a"] + ["x.log"] == ["var", "logs", "a", "x.log"];
    assert ["var", "logs"] + ["x.log"] == ["var", "logs", "x.log"];
    assert EntriesOutcome([file], ["var", "logs", "a"]) == Outcome([m], true);
    assert EntryOutcome(inner, ["var", "logs", "a"]) == Outcome([m], true);
    assert EntriesOutcome([inner], ["var", "logs"]) == Outcome([m], true);
    assert EntryOutcome(file, ["var", "logs", "x.log"]) == Outcome([m], true);
  }

  // ---------------------------------------------------------------------------
  // addDirToZip against the walk of the tree

  /** A visit addDirToZip gets through: a directory (its entries are judged on their own
      visits) or a file that opens and reads and whose data its member accepts. */
  predicate Addable(v: Visit) {
    v.node.Dir?
    || (v.node.File? && v.node.opens && v.node.readable && (v.node.size == 0 || !IsDirName(MemberName(v.path))))
  }

  predicate AllAddable(vs: seq<Visit>) {
    forall i | 0 <= i < |vs| :: Addable(vs[i])
  }

  /** One member named by its base name for every visit that is not a directory, in
      visiting order: Deflate, or Store for a name ending in '/'. */
  function FileMembers(vs: seq<Visit>): seq<Member> {
    if vs == [] then []
    else
      var last := vs[|vs| - 1];
      FileMembers(vs[..|vs| - 1]) + (if last.node.Dir? then [] else [FileMember(last.path)])
  }

  /** addDirToZip on a directory succeeds exactly when every entry of its walk is a
      directory or a file that opens, reads and whose data its member accepts; it then holds
      one flat member per file (Deflate, or Store for a name ending in '/'), in the
      depth-first listing order of the walk. Whatever it writes, failing or
      not, is a prefix of that sequence. */
  lemma DirArchiveFollowsWalk(d: Node, p: Path)
    requires d.Dir?
    ensures DirOutcome(Some(d), p).ok <==> AllAddable(Walk(d, p))
    ensures DirOutcome(Some(d), p).members <= FileMembers(Walk(d, p))
    ensures DirOutcome(Some(d), p).ok ==> DirOutcome(Some(d), p).members == FileMembers(Walk(d, p))
  {
    EntryFollowsWalk(d, p);
  }

  lemma {:induction false} EntriesFollowWalk(cs: seq<Node>, p: Path)
    ensures var o, vs := EntriesOutcome(cs, p), WalkChildren(cs, p);
      && (o.ok <==> AllAddable(vs))
      && o.members <= FileMembers(vs)
      && (o.ok ==> o.members == FileMembers(vs))
    decreases cs, 1
  {
    if cs != [] {
      var m := |cs| - 1;
      var c := cs[m];
      var a, b := WalkChildren(cs[..m], p), Walk(c, p + [c.name]);
      EntriesFollowWalk(cs[..m], p);
      EntryFollowsWalk(c, p + [c.name]);
      AllAddableAppend(a, b);
      FileMembersAppend(a, b);
    }
  }

  lemma {:induction false} EntryFollowsWalk(c: Node, q: Path)
    ensures var o, vs := EntryOutcome(c, q), Walk(c, q);
      && (o.ok <==> AllAddable(vs))
      && o.members <= FileMembers(vs)
      && (o.ok ==> o.members == FileMembers(vs))
    decreases c, 0
  {
    var head := [Visit(q, c)];
    match c
    case Dir(_, cs) =>
      EntriesFollowWalk(cs, q);
      AllAddableAppend(head, WalkChildren(cs, q));
      FileMembersAppend(head, WalkChildren(cs, q));
      assert FileMembers(head) == [];
    case _ =>
      assert Walk(c, q) == head;
      assert FileMembers(head) == [FileMember(q)];
  }

  lemma AllAddableAppend(a: seq<Visit>, b: seq<Visit>)
    ensures AllAddable(a + b) <==> AllAddable(a) && AllAddable(b)
  {
    if AllAddable(a) && AllAddable(b) {
      forall i | 0 <= i < |a + b|
        ensures Addable((a + b)[i])
      {
        if i < |a| { assert (a + b)[i] == a[i]; } else { assert (a + b)[i] == b[i - |a|]; }
      }
    }
    if AllAddable(a + b) {
      forall i | 0 <= i < |a|
        ensures Addable(a[i])
      {
        assert (a + b)[i] == a[i];
      }
      forall i | 0 <= i < |b|
        ensures Addable(b[i])
      {
        assert (a + b)[|a| + i] == b[i];
      }
    }
  }

  lemma {:induction false} FileMembersAppend(a: seq<Visit>, b: seq<Visit>)
    ensures FileMembers(a + b) == FileMembers(a) + FileMembers(b)
    decreases |b|
  {
    if b != [] {
      var m := |b| - 1;
      assert (a + b)[..|a + b| - 1] == a + b[..m];
      FileMembersAppend(a, b[..m]);
    } else {
      assert a + b == a;
    }
  }
}
