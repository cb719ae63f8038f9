/**
 * The top-level operations (src/operations.py): collecting the documents of
 * a project, copying them into the library under names derived from their
 * place in the project, checking them out into a workspace, merging them by
 * their directives, and finding sentences that occur more than once.
 *
 * The disk is read through a `Disk` value; every file copy is appended to
 * the operation's `copies` log and every meta document written to its
 * `metaWrites` log.
 */
module Operations {
  import opened PyStr
  import opened Optional
  import opened Signals
  import opened Hashing
  import opened FileSystem
  import opened Meta
  import opened Directives
  import opened Text
  import opened Constants

  /** The settings the operations read (how they are loaded is not part of
      this model). The directive rules are read from the same settings. */
  datatype Env = Env(
    projectCode: string,
    sourceDir: string,
    workspaceDirPath: string,
    dataDirPath: string,
    metaDirName: string,
    libDirName: string,
    docSourceDirName: string,
    dataFileSuffix: string,
    codeSep: string,
    keyLength: int,
    docFileExtensions: set<string>,
    defaultDocFormat: string,
    rules: RuleSet)

  // ---------------------------------------------------------------------
  // Collecting documents

  /** The text after the last `.` of a file name, or the whole name. */
  function Extension(fileName: string): (e: string)
    ensures '.' !in e
    ensures '.' !in fileName ==> e == fileName
    ensures EndsWith(fileName, e)
  {
    AfterLastChar(fileName, '.');
    RPartition(fileName, ".").tail
  }

  /** What `rpartition` of a one-character separator leaves after it. */
  lemma AfterLastChar(s: string, c: char)
    ensures var p := RPartition(s, [c]);
      && c !in p.tail && EndsWith(s, p.tail)
      && (c !in s ==> p == Parts([], [], s))
      && (c in s ==> s == p.head + [c] + p.tail)
  {
    var p := RPartition(s, [c]);
    RPartitionLast(s, [c]);
    forall i | 0 <= i < |p.tail| ensures p.tail[i] != c {
      assert p.tail[i..i + 1] == [p.tail[i]];
      assert !OccursAt(p.tail, [c], i);
    }
    if c in s {
      var i :| 0 <= i < |s| && s[i] == c;
      assert s[i..i + 1] == [c];
      assert OccursAt(s, [c], i);
    } else {
      forall j | 0 <= j < |s| ensures !OccursAt(s, [c], j) {
        assert s[j..j + 1][0] == s[j];
      }
    }
    assert s == (p.head + p.sep) + p.tail;
  }

  /** The files `collect` keeps: those whose extension is listed. */
  function Listed(extensions: set<string>): string -> bool
  {
    f => Extension(f) in extensions
  }

  /** `p` is the joined path of a walked file that is kept. */
  ghost predicate Walked(walk: seq<WalkEntry>, keep: string -> bool, p: string)
  {
    exists i, f :: 0 <= i < |walk| && f in walk[i].files && keep(f) && p == PathJoin(walk[i].dir, f)
  }

  /** The kept files among `files`, joined to `dir`. */
  function FoundIn(dir: string, files: seq<string>, keep: string -> bool): set<string>
    decreases |files|
  {
    if files == [] then {}
    else
      var last := files[|files| - 1];
      FoundIn(dir, files[..|files| - 1], keep) + if keep(last) then {PathJoin(dir, last)} else {}
  }

  lemma FoundInSnoc(dir: string, files: seq<string>, j: int, extensions: set<string>)
    requires 0 <= j < |files|
    ensures FoundIn(dir, files[..j + 1], Listed(extensions))
            == FoundIn(dir, files[..j], Listed(extensions))
               + if Extension(files[j]) in extensions then {PathJoin(dir, files[j])} else {}
  {
    assert files[..j + 1][..j] == files[..j];
  }

  lemma {:induction false} FoundInIff(dir: string, files: seq<string>, keep: string -> bool, p: string)
    ensures p in FoundIn(dir, files, keep) <==> exists f :: f in files && keep(f) && p == PathJoin(dir, f)
    decreases |files|
  {
    if files != [] {
      var init := files[..|files| - 1];
      var last := files[|files| - 1];
      FoundInIff(dir, init, keep, p);
      assert files == init + [last];
      if exists f :: f in files && keep(f) && p == PathJoin(dir, f) {
        var f :| f in files && keep(f) && p == PathJoin(dir, f);
        if f != last {
          assert f in init;
        }
      }
    }
  }

  /** The paths `collect` gathers from a walk, directory by directory. */
  function CollectedFrom(walk: seq<WalkEntry>, keep: string -> bool): set<string>
    decreases |walk|
  {
    if walk == [] then {}
    else
      var last := walk[|walk| - 1];
      CollectedFrom(walk[..|walk| - 1], keep) + FoundIn(last.dir, last.files, keep)
  }

  /** A path is collected exactly when some walked directory holds a kept
      file whose joined path it is. */
  lemma {:induction false} CollectedFromWalked(walk: seq<WalkEntry>, keep: string -> bool, p: string)
    ensures p in CollectedFrom(walk, keep) <==> Walked(walk, keep, p)
    decreases |walk|
  {
    if walk != [] {
      var n := |walk| - 1;
      var init := walk[..n];
      CollectedFromWalked(init, keep, p);
      FoundInIff(walk[n].dir, walk[n].files, keep, p);
      if Walked(init, keep, p) {
        var i, f :| 0 <= i < n && f in init[i].files && keep(f) && p == PathJoin(init[i].dir, f);
        assert walk[i] == init[i];
      }
      if p in FoundIn(walk[n].dir, walk[n].files, keep) {
        var f :| f in walk[n].files && keep(f) && p == PathJoin(walk[n].dir, f);
        assert Walked(walk, keep, p);
      }
      if Walked(walk, keep, p) {
        var i, f :| 0 <= i < |walk| && f in walk[i].files && keep(f) && p == PathJoin(walk[i].dir, f);
        if i < n {
          assert init[i] == walk[i];
          assert Walked(init, keep, p);
        }
      }
    }
  }

  /** `Operation.collect`, given what `os.walk(target_dir)` yields. */
  method Collect(env: Env, walk: seq<WalkEntry>) returns (collected: set<string>)
    ensures collected == CollectedFrom(walk, Listed(env.docFileExtensions))
  {
    collected := {};
    var i := 0;
    while i < |walk|
      invariant 0 <= i <= |walk|
      invariant collected == CollectedFrom(walk[..i], Listed(env.docFileExtensions))
    {
      var found := CollectDir(env, walk[i].dir, walk[i].files);
      collected := collected + found;
      assert walk[..i + 1][..i] == walk[..i];
      i := i + 1;
    }
    assert walk[..|walk|] == walk;
  }

  /** The files of one walked directory that `collect` keeps, joined to it. */
  method CollectDir(env: Env, currentDir: string, files: seq<string>) returns (found: set<string>)
    ensures found == FoundIn(currentDir, files, Listed(env.docFileExtensions))
  {
    found := {};
    var j := 0;
    while j < |files|
      invariant 0 <= j <= |files|
      invariant found == FoundIn(currentDir, files[..j], Listed(env.docFileExtensions))
    {
      FoundInSnoc(currentDir, files, j, env.docFileExtensions);
      if Extension(files[j]) in env.docFileExtensions {
        found := found + {PathJoin(currentDir, files[j])};
      }
      j := j + 1;
    }
    assert files[..|files|] == files;
  }

  // ---------------------------------------------------------------------
  // Paths and library names

  /** The three directory names of the workspace layout are plain segments. */
  predicate PlainLayout(env: Env)
  {
    IsPlainSegment(env.workspaceDirPath) && IsPlainSegment(env.projectCode) && IsPlainSegment(env.docSourceDirName)
  }

  /** `Operation.make_workspace_path`: the project's document directory in
      the workspace, and below it `targetDir` when that is not empty. With
      plain names that is `workspace/project/doc_source[/target_dir]`; a
      target directory with a leading slash replaces the whole path, as
      `os.path.join` does. */
  function MakeWorkspacePath(env: Env, targetDir: string): (path: string)
    ensures PlainLayout(env) && targetDir == [] ==>
              path == env.workspaceDirPath + "/" + env.projectCode + "/" + env.docSourceDirName
    ensures PlainLayout(env) && IsPlainSegment(targetDir) ==>
              path == env.workspaceDirPath + "/" + env.projectCode + "/" + env.docSourceDirName + "/" + targetDir
    ensures PlainLayout(env) && (targetDir == [] || IsPlainSegment(targetDir)) ==> IsPlainSegment(path)
    ensures targetDir != [] && targetDir[0] == '/' ==> path == targetDir
  {
    var a := PathJoin(env.workspaceDirPath, env.projectCode);
    var docs := PathJoin(a, env.docSourceDirName);
    var path := if targetDir != [] then PathJoin(docs, targetDir) else docs;
    if PlainLayout(env) then
      PathJoinPlain(env.workspaceDirPath, env.projectCode);
      PathJoinPlain(a, env.docSourceDirName);
      if IsPlainSegment(targetDir) then
        PathJoinPlain(docs, targetDir);
        path
      else
        path
    else
      path
  }

  /** The part of a document path below `/<doc source dir>/`, or nothing
      when the path has no such part. */
  function LocalPath(path: string, docSourceDirName: string): string
  {
    Partition(path, "/" + docSourceDirName + "/").tail
  }

  /** The local path is the end of the path, and nothing when the path
      does not pass through the document directory. */
  lemma LocalPathShape(path: string, docSourceDirName: string)
    ensures EndsWith(path, LocalPath(path, docSourceDirName))
    ensures (forall j :: !OccursAt(path, "/" + docSourceDirName + "/", j)) ==> LocalPath(path, docSourceDirName) == []
  {
    var marker := "/" + docSourceDirName + "/";
    PartitionFirst(path, marker);
    var p := Partition(path, marker);
    assert path == (p.head + p.sep) + p.tail;
  }

  /** `(target_dir, file_name)`: a local path split at its last slash. */
  function SplitLocalPath(local: string): (string, string)
  {
    var p := RPartition(local, "/");
    (p.head, p.tail)
  }

  /** The file name holds no slash, and with the directory it gives back
      the local path. */
  lemma SplitLocalPathShape(local: string)
    ensures var r := SplitLocalPath(local);
      && '/' !in r.1
      && ('/' in local ==> local == r.0 + "/" + r.1)
      && ('/' !in local ==> r == ([], local))
  {
    AfterLastChar(local, '/');
  }

  /** The library suffix: the first `keyLength` hexadecimal digits of the
      digest of `project_code/target_dir`. */
  function LibSuffix(projectCode: string, targetDir: string, keyLength: int, sha1: Sha1): string
  {
    Slice(sha1(PathJoin(projectCode, targetDir)), keyLength)
  }

  /** The suffix is a prefix of the digest, of the key length when that
      is at most the digest's, made of hexadecimal digits. */
  lemma LibSuffixShape(projectCode: string, targetDir: string, keyLength: int, sha1: Sha1)
    ensures var suffix := LibSuffix(projectCode, targetDir, keyLength, sha1);
      && StartsWith(sha1(PathJoin(projectCode, targetDir)), suffix)
      && (0 <= keyLength <= 40 ==> |suffix| == keyLength)
      && forall i :: 0 <= i < |suffix| ==> suffix[i] in HexDigits
  {
    var d := sha1(PathJoin(projectCode, targetDir));
    assert IsHexDigest(d);
  }

  /** The record `copy_project` registers for a collected path. */
  function RecordOf(env: Env, path: string, sha1: Sha1): MetaRecord
  {
    var parts := SplitLocalPath(LocalPath(path, env.docSourceDirName));
    MetaRecord(parts.1, parts.0, LibSuffix(env.projectCode, parts.0, env.keyLength, sha1))
  }

  /** The library file name of a collected path, `file_name + code_sep + suffix`. */
  function LibFileName(env: Env, path: string, sha1: Sha1): string
  {
    var rec := RecordOf(env, path, sha1);
    Join([rec.fileName, rec.libSuffix], env.codeSep)
  }

  /** The library file name is the signature the path's record is
      registered under, so the meta document and the library agree. */
  lemma LibFileNameIsSignature(env: Env, path: string, sha1: Sha1)
    ensures LibFileName(env, path, sha1) == Signature(RecordOf(env, path, sha1), env.codeSep)
  {
    var rec := RecordOf(env, path, sha1);
    JoinPair(rec.fileName, rec.libSuffix, env.codeSep);
  }

  lemma LibNamesAreSignatures(env: Env, sha1: Sha1)
    ensures forall p :: Signature(RecordMaker(env, sha1)(p), env.codeSep) == LibNamer(env, sha1)(p)
  {
    forall p ensures Signature(RecordMaker(env, sha1)(p), env.codeSep) == LibNamer(env, sha1)(p) {
      LibFileNameIsSignature(env, p, sha1);
    }
  }

  /** The library name of each path, as a function value. */
  function LibNamer(env: Env, sha1: Sha1): string -> string
  {
    p => LibFileName(env, p, sha1)
  }

  /** The record of each path, as a function value. */
  function RecordMaker(env: Env, sha1: Sha1): string -> MetaRecord
  {
    p => RecordOf(env, p, sha1)
  }

  /** The names a naming function gives a set of paths. */
  ghost function NamesOf(paths: set<string>, name: string -> string): set<string>
  {
    set p | p in paths :: name(p)
  }

  /** Where `_save` copies a library file. */
  function LibPath(env: Env, name: string): string
  {
    PathJoin(PathJoin(env.dataDirPath, env.libDirName), name)
  }

  // ---------------------------------------------------------------------
  // Operations

  /** The meta document every operation opens: the project's, empty until
      read, keyed with the code separator. */
  method OpenMetaDocument(env: Env) returns (metaDoc: MetaDocument)
    ensures fresh(metaDoc)
    ensures metaDoc.contents == EmptyRegistry && metaDoc.Valid()
    ensures metaDoc.recordIdSep == env.codeSep
  {
    metaDoc := new MetaDocument(env.projectCode, env.dataDirPath, env.metaDirName, env.dataFileSuffix, env.codeSep);
  }

  /** The paths `collect` returns for `targetDir`. */
  function CollectedPaths(env: Env, disk: Disk, targetDir: string): set<string>
  {
    CollectedFrom(disk.walk(targetDir), Listed(env.docFileExtensions))
  }

  /** The collection after `copy_project` has gone through the paths
      `done`, starting from `base`: one entry per name of those paths,
      holding a path of that name; the other entries as before. */
  ghost predicate CollectionCovers(name: string -> string, base: map<string, string>, coll: map<string, string>, done: set<string>)
  {
    && coll.Keys == base.Keys + NamesOf(done, name)
    && (forall k :: k in coll && k !in NamesOf(done, name) ==> coll[k] == base[k])
    && (forall k :: k in NamesOf(done, name) ==> coll[k] in done && name(coll[k]) == k)
  }

  lemma CollectionStep(name: string -> string, base: map<string, string>, coll: map<string, string>, done: set<string>, p: string)
    requires CollectionCovers(name, base, coll, done)
    ensures CollectionCovers(name, base, coll[name(p) := p], done + {p})
  {
    NamesAdd(done, p, name);
  }

  /** The meta document `copy_project` fills from the paths `done`: one
      record per name, each the record of one of the paths, stored under
      its own signature. */
  ghost predicate RegistryCovers(name: string -> string, record: string -> MetaRecord, sep: string, reg: Registry, done: set<string>)
  {
    && reg.Valid() && reg.KeyedBy(sep)
    && reg.records.Keys == NamesOf(done, name)
    && forall k :: k in reg.records ==> exists p :: p in done && reg.records[k] == record(p)
  }

  lemma RegistryStep(name: string -> string, record: string -> MetaRecord, sep: string, reg: Registry, done: set<string>, p: string)
    requires RegistryCovers(name, record, sep, reg, done)
    requires Signature(record(p), sep) == name(p)
    ensures RegistryCovers(name, record, sep, reg.Register(record(p), sep), done + {p})
  {
    NamesAdd(done, p, name);
    var r := reg.Register(record(p), sep);
    forall k | k in r.records ensures exists q :: q in done + {p} && r.records[k] == record(q) {
      if k in reg.records {
        var q :| q in done && reg.records[k] == record(q);
        assert q in done + {p};
      } else {
        assert r.records[k] == record(p);
      }
    }
  }

  /** Moving one element from the part still to visit to the part done
      keeps the two a partition of the whole. */
  lemma MoveOne<T>(left: set<T>, done: set<T>, whole: set<T>, x: T)
    requires left + done == whole && left !! done && x in left
    ensures (left - {x}) + (done + {x}) == whole && (left - {x}) !! (done + {x})
    ensures |left - {x}| < |left|
  {
  }

  lemma NamesAdd(done: set<string>, p: string, name: string -> string)
    ensures NamesOf(done + {p}, name) == NamesOf(done, name) + {name(p)}
  {
  }

  /** The copies `_save` makes: one per library name, from its source path
      to the library directory. */
  ghost predicate IsSaveLog(env: Env, collection: map<string, string>, log: seq<Copy>)
  {
    && |log| == |collection.Keys|
    && forall c :: c in log <==> exists k :: k in collection && c == Copy(collection[k], LibPath(env, k))
  }

  /** The copies of `_save`'s loop, one library name after another. */
  method SaveCopies(env: Env, collection: map<string, string>) returns (added: seq<Copy>)
    ensures IsSaveLog(env, collection, added)
  {
    var left := collection.Keys;
    ghost var done: set<string> := {};
    added := [];
    while left != {}
      invariant left + done == collection.Keys && left !! done
      invariant SaveProgress(env, collection, done, added)
      decreases |left|
    {
      var name :| name in left;
      SaveStep(env, collection, done, added, name);
      added := added + [Copy(collection[name], LibPath(env, name))];
      MoveOne(left, done, collection.Keys, name);
      left := left - {name};
      done := done + {name};
    }
  }

  /** The copies made for the library names `done`. */
  ghost predicate SaveProgress(env: Env, collection: map<string, string>, done: set<string>, added: seq<Copy>)
  {
    && done <= collection.Keys
    && |added| == |done|
    && forall c :: c in added <==> exists k :: k in done && c == Copy(collection[k], LibPath(env, k))
  }

  lemma SaveStep(env: Env, collection: map<string, string>, done: set<string>, added: seq<Copy>, name: string)
    requires SaveProgress(env, collection, done, added) && name in collection && name !in done
    ensures SaveProgress(env, collection, done + {name}, added + [Copy(collection[name], LibPath(env, name))])
  {
  }

  /** `Operation`: the settings, the status list, the library collection
      (library name to source path), and the logs of copies and meta writes. */
  class Operation {
    const env: Env
    const sha1: Sha1
    const workspacePath: Option<string>
    /** The library name and the record `copy_project` gives a path. */
    const libName: string -> string
    const libRecord: string -> MetaRecord
    var status: seq<Status>
    var collection: map<string, string>
    var copies: seq<Copy>
    var metaWrites: seq<(string, Registry)>

    /** `Operation(env)`: the workspace path is set only when there is a
        project code. */
    constructor (env: Env, sha1: Sha1)
      ensures this.env == env && this.sha1 == sha1
      ensures workspacePath == if env.projectCode != [] then Some(PathJoin(env.workspaceDirPath, env.projectCode)) else None
      ensures status == [] && collection == map[] && copies == [] && metaWrites == []
      ensures libName == LibNamer(env, sha1) && libRecord == RecordMaker(env, sha1)
      ensures Valid()
    {
      this.env := env;
      this.sha1 := sha1;
      this.libName := LibNamer(env, sha1);
      this.libRecord := RecordMaker(env, sha1);
      this.workspacePath := if env.projectCode != [] then Some(PathJoin(env.workspaceDirPath, env.projectCode)) else None;
      status := [];
      collection := map[];
      copies := [];
      metaWrites := [];
      LibNamesAreSignatures(env, sha1);
    }

    /** Each path's library name is the signature of its record. */
    ghost predicate Consistent()
    {
      forall p :: Signature(libRecord(p), env.codeSep) == libName(p)
    }

    /** The names agree, and there is a workspace path exactly when there
        is a project code. */
    ghost predicate Valid()
    {
      Consistent() && (workspacePath.Some? <==> env.projectCode != [])
    }

    /** `copy_project`: every collected document gets a record in a fresh
        meta document and an entry in the collection; the meta document is
        written and the collection copied into the library. */
    method CopyProject(disk: Disk, targetDir: string) returns (result: map<string, string>)
      requires Consistent()
      modifies this
      ensures result == collection
      ensures CollectionCovers(libName, old(collection), collection, CollectedPaths(env, disk, targetDir))
      ensures |metaWrites| == |old(metaWrites)| + 1 && metaWrites[..|old(metaWrites)|] == old(metaWrites)
      ensures RegistryCovers(libName, libRecord, env.codeSep, metaWrites[|old(metaWrites)|].1, CollectedPaths(env, disk, targetDir))
      ensures |copies| >= |old(copies)| && copies[..|old(copies)|] == old(copies)
      ensures IsSaveLog(env, collection, copies[|old(copies)|..])
      ensures status == old(status)
    {
      var collected := Collect(env, disk.walk(targetDir));
      result := CopyCollected(collected);
    }

    /** `copy_project` once the documents are collected. */
    method CopyCollected(collected: set<string>) returns (result: map<string, string>)
      requires Consistent()
      modifies this
      ensures result == collection
      ensures CollectionCovers(libName, old(collection), collection, collected)
      ensures |metaWrites| == |old(metaWrites)| + 1 && metaWrites[..|old(metaWrites)|] == old(metaWrites)
      ensures RegistryCovers(libName, libRecord, env.codeSep, metaWrites[|old(metaWrites)|].1, collected)
      ensures |copies| >= |old(copies)| && copies[..|old(copies)|] == old(copies)
      ensures IsSaveLog(env, collection, copies[|old(copies)|..])
      ensures status == old(status)
    {
      var metaDoc := OpenMetaDocument(env);
      var coll := RegisterAll(metaDoc, collected, libName, libRecord);
      collection := coll;
      var metaPath, written := metaDoc.Save();
      assert RegistryCovers(libName, libRecord, env.codeSep, written, collected);
      metaWrites := metaWrites + [(metaPath, written)];
      assert metaWrites[|old(metaWrites)|].1 == written;
      SaveCollection();
      assert collection == coll;
      result := collection;
    }

    /** The loop of `copy_project`, with the library name and the record
        of a path given as functions: each collected path's record is
        registered, and the collection maps the path's name to it (a later
        path of the same name replacing an earlier one). */
    method RegisterAll(metaDoc: MetaDocument, collected: set<string>,
                       name: string -> string, record: string -> MetaRecord) returns (coll: map<string, string>)
      requires metaDoc.recordIdSep == env.codeSep
      requires forall p :: Signature(record(p), env.codeSep) == name(p)
      requires RegistryCovers(name, record, env.codeSep, metaDoc.contents, {})
      modifies metaDoc
      ensures CollectionCovers(name, collection, coll, collected)
      ensures RegistryCovers(name, record, env.codeSep, metaDoc.contents, collected)
    {
      coll := collection;
      var left := collected;
      ghost var done: set<string> := {};
      while left != {}
        invariant left + done == collected && left !! done
        invariant CollectionCovers(name, collection, coll, done)
        invariant RegistryCovers(name, record, env.codeSep, metaDoc.contents, done)
        decreases |left|
      {
        var path :| path in left;
        CollectionStep(name, collection, coll, done, path);
        RegistryStep(name, record, env.codeSep, metaDoc.contents, done, path);
        var _ := metaDoc.Register(record(path));
        coll := coll[name(path) := path];
        MoveOne(left, done, collected, path);
        left := left - {path};
        done := done + {path};
      }
    }

    /** `_save`: every library file of the collection is copied from its
        source path. */
    method SaveCollection()
      modifies this
      ensures |copies| >= |old(copies)| && copies[..|old(copies)|] == old(copies)
      ensures IsSaveLog(env, collection, copies[|old(copies)|..])
      ensures collection == old(collection) && status == old(status) && metaWrites == old(metaWrites)
    {
      var added := SaveCopies(env, collection);
      copies := copies + added;
      assert copies[|old(copies)|..] == added;
    }

    /** The body of `AddOperation`: the project's documents are copied in,
        and `Add.Ok` is reported when the collection is not empty,
        `Add.Failed` otherwise. */
    method Add(disk: Disk)
      requires Consistent()
      modifies this
      ensures status == old(status) + [if collection != map[] then AddOk else AddFailed]
      ensures CollectionCovers(libName, old(collection), collection, CollectedPaths(env, disk, PathJoin(env.sourceDir, env.docSourceDirName)))
      ensures |metaWrites| == |old(metaWrites)| + 1 && metaWrites[..|old(metaWrites)|] == old(metaWrites)
      ensures RegistryCovers(libName, libRecord, env.codeSep, metaWrites[|old(metaWrites)|].1,
                             CollectedPaths(env, disk, PathJoin(env.sourceDir, env.docSourceDirName)))
      ensures |copies| >= |old(copies)| && copies[..|old(copies)|] == old(copies)
      ensures IsSaveLog(env, collection, copies[|old(copies)|..])
    {
      var sourceDir := PathJoin(env.sourceDir, env.docSourceDirName);
      var copied := CopyProject(disk, sourceDir);
      Report(if copied != map[] then AddOk else AddFailed);
    }

    /** Appends one entry to the status list; nothing else changes. */
    method Report(s: Status)
      modifies this
      ensures status == old(status) + [s]
      ensures collection == old(collection) && copies == old(copies) && metaWrites == old(metaWrites)
    {
      status := status + [s];
    }

    /** The copying part of `CheckOutOperation`: every item of the meta
        document, in its order, is copied from the library to its place in
        the workspace and reported as `CheckOut.Ok`. */
    method CheckOut(data: seq<(string, MetaRecord)>)
      modifies this
      ensures copies == old(copies) + CheckOutCopies(env, LoadedItems(env, data))
      ensures status == old(status) + CheckOutMarks(|LoadedItems(env, data)|)
      ensures collection == old(collection) && metaWrites == old(metaWrites)
    {
      var metaDoc := OpenMetaDocument(env);
      var _ := metaDoc.Read(data);
      var items := metaDoc.GetContents();
      CheckOutItems(items);
    }

    /** The check-out loop over the meta document's items. */
    method CheckOutItems(items: seq<(string, MetaRecord)>)
      modifies this
      ensures copies == old(copies) + CheckOutCopies(env, items)
      ensures status == old(status) + CheckOutMarks(|items|)
      ensures collection == old(collection) && metaWrites == old(metaWrites)
    {
      var i := 0;
      while i < |items|
        invariant 0 <= i <= |items|
        invariant copies == old(copies) + CheckOutCopies(env, items[..i])
        invariant status == old(status) + CheckOutMarks(i)
        invariant collection == old(collection) && metaWrites == old(metaWrites)
      {
        var (signature, record) := items[i];
        var sourceFilePath := PathJoin(PathJoin(env.dataDirPath, env.libDirName), signature);
        var targetDir := MakeWorkspacePath(env, record.targetDir);
        var targetFilePath := PathJoin(targetDir, record.fileName);
        assert CheckOutCopies(env, items[..i + 1]) == CheckOutCopies(env, items[..i]) + [Copy(sourceFilePath, targetFilePath)];
        copies := copies + [Copy(sourceFilePath, targetFilePath)];
        status := status + [CheckOutOk];
        i := i + 1;
      }
      assert items[..|items|] == items;
    }

    /** One item of `MergeOperation`: a file in the default format is read
        back from the workspace and its directives indexed; the values of
        its auto directive are handed to the auto agent. Any other file is
        reported as `Merge.Failed`. An exception out of the indexing is
        returned, with nothing changed. */
    method MergeItem(disk: Disk, record: MetaRecord) returns (raised: Option<PyError>)
      requires env.projectCode != []
      modifies this
      ensures raised.Some? <==> MergeRaises(env, disk, record)
      ensures raised.Some? ==> raised.value == DocIndex(env, disk, record).e && copies == old(copies)
      ensures status == old(status) + (if IsDoc(env, record) then [] else [MergeFailed])
      ensures |copies| >= |old(copies)| && copies[..|old(copies)|] == old(copies)
      ensures forall c :: c in copies[|old(copies)|..] <==> c in AutoCopies(env, disk, record)
      ensures collection == old(collection) && metaWrites == old(metaWrites)
    {
      raised := None;
      var autoDirective := DocProperty(OnlyNameSpace, "", env.rules.nameSpaceSep);
      if EndsWith(record.fileName, env.defaultDocFormat) {
        var targetDir := MakeWorkspacePath(env, record.targetDir);
        var targetFilePath := PathJoin(targetDir, record.fileName);
        var index := Directives.Inspect(disk.lines(targetFilePath), env.rules);
        if index.Failed? {
          raised := Some(index.e);
        } else if autoDirective in index.m {
          // The product and version agents only print; see `DefaultKeysNeverIndexed`.
          var made := RunAuto(targetFilePath, env.projectCode, index.m[autoDirective]);
          copies := copies + made;
          assert copies[|old(copies)|..] == made;
        }
      } else {
        status := status + [MergeFailed];
      }
    }

    /** The body of `MergeOperation`. Without a workspace path it reports
        `Merge.Failed` once. Otherwise it goes through the meta document's
        items in order up to the first document whose directives raise
        (`reached`): one `Merge.Failed` per item that is not a document, and
        the auto agent's copies for every document. */
    method Merge(data: seq<(string, MetaRecord)>, disk: Disk) returns (raised: Option<PyError>, ghost reached: nat)
      requires Valid()
      modifies this
      ensures workspacePath.None? ==> status == old(status) + [MergeFailed] && copies == old(copies) && raised == None
      ensures workspacePath.Some? ==> MergeDone(env, disk, LoadedItems(env, data), reached, raised, old(status), status, old(copies), copies)
      ensures collection == old(collection) && metaWrites == old(metaWrites)
    {
      raised, reached := None, 0;
      if workspacePath.None? {
        status := status + [MergeFailed];
        return;
      }
      var metaDoc := OpenMetaDocument(env);
      var _ := metaDoc.Read(data);
      var items := metaDoc.GetContents();
      raised, reached := MergeItems(disk, items);
    }

    /** The merge loop over the meta document's items. */
    method MergeItems(disk: Disk, items: seq<(string, MetaRecord)>) returns (raised: Option<PyError>, ghost reached: nat)
      requires env.projectCode != []
      modifies this
      ensures MergeDone(env, disk, items, reached, raised, old(status), status, old(copies), copies)
      ensures collection == old(collection) && metaWrites == old(metaWrites)
    {
      raised := None;
      var i := 0;
      assert items[..0] == [];
      while i < |items|
        invariant 0 <= i <= |items| && raised == None
        invariant MergeProgress(env, disk, items, i, old(status), status, old(copies), copies)
        invariant collection == old(collection) && metaWrites == old(metaWrites)
      {
        raised := MergeStep(disk, items, i, old(status), old(copies));
        if raised.Some? {
          reached := i;
          return;
        }
        i := i + 1;
      }
      reached := i;
    }

    /** One turn of the merge loop: the next item is merged, or it raises
        and the merge stops there. */
    method MergeStep(disk: Disk, items: seq<(string, MetaRecord)>, i: nat, ghost status0: seq<Status>, ghost copies0: seq<Copy>)
        returns (raised: Option<PyError>)
      requires env.projectCode != []
      requires i < |items| && MergeProgress(env, disk, items, i, status0, status, copies0, copies)
      modifies this
      ensures raised.None? ==> MergeProgress(env, disk, items, i + 1, status0, status, copies0, copies)
      ensures raised.Some? ==> MergeDone(env, disk, items, i, raised, status0, status, copies0, copies)
      ensures collection == old(collection) && metaWrites == old(metaWrites)
    {
      ghost var before := copies;
      raised := MergeItem(disk, items[i].1);
      if raised.None? {
        assert forall j :: 0 <= j < i + 1 ==> !MergeRaises(env, disk, items[j].1);
        MergeCopiesStep(env, disk, items, i, copies0, before, copies);
        assert items[..i + 1][..i] == items[..i];
      }
    }
  }

  /** A fresh operation adds something exactly when some document was
      collected. */
  lemma AddOkIffCollected(name: string -> string, coll: map<string, string>, paths: set<string>)
    requires CollectionCovers(name, map[], coll, paths)
    ensures coll != map[] <==> paths != {}
  {
    if paths != {} {
      var p :| p in paths;
      assert name(p) in coll;
    }
  }

  /** What a fresh add leaves behind for the collected `paths`: a collection
      naming one path per library name, exactly one meta document written,
      holding one record per library name, and the library copies of
      `_save`. */
  ghost predicate AddedFrom(env: Env, paths: set<string>, libName: string -> string, libRecord: string -> MetaRecord,
                            collection: map<string, string>, metaWrites: seq<(string, Registry)>, copies: seq<Copy>)
  {
    && CollectionCovers(libName, map[], collection, paths)
    && |metaWrites| == 1
    && RegistryCovers(libName, libRecord, env.codeSep, metaWrites[0].1, paths)
    && IsSaveLog(env, collection, copies)
  }

  /** `AddOperation(env)`: the status list holds one entry, `Add.Ok` exactly
      when the source directory holds a document with a listed extension;
      one meta document is written, holding one record per library name of
      the collected documents, and every library file is copied in. */
  method AddOperation(env: Env, sha1: Sha1, disk: Disk) returns (op: Operation)
    ensures op.env == env
    ensures op.status == [if CollectedPaths(env, disk, PathJoin(env.sourceDir, env.docSourceDirName)) != {} then AddOk else AddFailed]
    ensures op.libName == LibNamer(env, sha1) && op.libRecord == RecordMaker(env, sha1)
    ensures AddedFrom(env, CollectedPaths(env, disk, PathJoin(env.sourceDir, env.docSourceDirName)),
                      op.libName, op.libRecord, op.collection, op.metaWrites, op.copies)
  {
    op := new Operation(env, sha1);
    ghost var collection0, metaWrites0, copies0 := op.collection, op.metaWrites, op.copies;
    op.Add(disk);
    ghost var paths := CollectedPaths(env, disk, PathJoin(env.sourceDir, env.docSourceDirName));
    AddedFromStart(env, paths, op.libName, op.libRecord, collection0, op.collection, metaWrites0, op.metaWrites, copies0, op.copies);
    AddOkIffCollected(op.libName, op.collection, paths);
  }

  /** An add that starts from nothing leaves `AddedFrom` behind. */
  lemma AddedFromStart(env: Env, paths: set<string>, libName: string -> string, libRecord: string -> MetaRecord,
                       collection0: map<string, string>, collection: map<string, string>,
                       metaWrites0: seq<(string, Registry)>, metaWrites: seq<(string, Registry)>,
                       copies0: seq<Copy>, copies: seq<Copy>)
    requires collection0 == map[] && metaWrites0 == [] && copies0 == []
    requires CollectionCovers(libName, collection0, collection, paths)
    requires |metaWrites| == |metaWrites0| + 1
    requires RegistryCovers(libName, libRecord, env.codeSep, metaWrites[|metaWrites0|].1, paths)
    requires |copies| >= |copies0|
    requires IsSaveLog(env, collection, copies[|copies0|..])
    ensures AddedFrom(env, paths, libName, libRecord, collection, metaWrites, copies)
  {
    assert copies[0..] == copies;
  }

  /** `CheckOutOperation(env)`, up to the ticket request: one copy and one
      `CheckOut.Ok` per record of the meta document `data`. */
  method CheckOutOperation(env: Env, sha1: Sha1, data: seq<(string, MetaRecord)>) returns (op: Operation)
    ensures op.env == env
    ensures op.copies == CheckOutCopies(env, LoadedItems(env, data))
    ensures op.status == CheckOutMarks(|LoadedItems(env, data)|)
  {
    op := new Operation(env, sha1);
    op.CheckOut(data);
  }

  /** `MergeOperation(env)`: without a project code a single
      `Merge.Failed`; otherwise the merge of the meta document's records,
      stopped by the first document whose directives raise. */
  method MergeOperation(env: Env, sha1: Sha1, data: seq<(string, MetaRecord)>, disk: Disk)
    returns (op: Operation, raised: Option<PyError>, ghost reached: nat)
    ensures op.env == env
    ensures env.projectCode == [] ==> op.status == [MergeFailed] && op.copies == [] && raised == None
    ensures env.projectCode != [] ==> MergeDone(env, disk, LoadedItems(env, data), reached, raised, [], op.status, [], op.copies)
  {
    op := new Operation(env, sha1);
    raised, reached := op.Merge(data, disk);
  }

  // ---------------------------------------------------------------------
  // Check-out

  /** What `get_contents` yields after a fresh meta document has read
      `data`: distinct keys, each the signature of its record. */
  function LoadedItems(env: Env, data: seq<(string, MetaRecord)>): (items: seq<(string, MetaRecord)>)
    ensures forall i :: 0 <= i < |items| ==> Signature(items[i].1, env.codeSep) == items[i].0
    ensures forall i, j :: 0 <= i < j < |items| ==> items[i].0 != items[j].0
  {
    var reg := RegisterAll(EmptyRegistry, Records(data), env.codeSep);
    RegisterAllValid(EmptyRegistry, Records(data), env.codeSep);
    ItemsExactlyOnce(reg);
    reg.Items()
  }

  /** Each loaded item is the first record of the document with its
      signature. */
  lemma LoadedItemsAreFirst(env: Env, data: seq<(string, MetaRecord)>, i: int)
    requires 0 <= i < |LoadedItems(env, data)|
    ensures exists j :: Meta.FirstWith(Records(data), env.codeSep, LoadedItems(env, data)[i].0, j)
                        && LoadedItems(env, data)[i].1 == data[j].1
  {
    var recs := Records(data);
    var reg := RegisterAll(EmptyRegistry, recs, env.codeSep);
    RegisterAllValid(EmptyRegistry, recs, env.codeSep);
    ItemsExactlyOnce(reg);
    RegisterAllFirstWins(EmptyRegistry, recs, env.codeSep, LoadedItems(env, data)[i].0);
  }

  /** Every record of the document has its signature among the loaded
      items. */
  lemma LoadedItemsCover(env: Env, data: seq<(string, MetaRecord)>, j: int)
    requires 0 <= j < |data|
    ensures exists i :: 0 <= i < |LoadedItems(env, data)| && LoadedItems(env, data)[i].0 == Signature(data[j].1, env.codeSep)
  {
    var recs := Records(data);
    var reg := RegisterAll(EmptyRegistry, recs, env.codeSep);
    RegisterAllValid(EmptyRegistry, recs, env.codeSep);
    ItemsExactlyOnce(reg);
    var k := Signature(recs[j], env.codeSep);
    assert recs[j] == data[j].1;
    RegisterAllKeys(EmptyRegistry, recs, env.codeSep, k);
    assert k in reg.records;
    assert LoadedItems(env, data) == reg.Items();
  }

  /** Where a record's file lives in the workspace. */
  function WorkspaceFilePath(env: Env, rec: MetaRecord): string
  {
    PathJoin(MakeWorkspacePath(env, rec.targetDir), rec.fileName)
  }

  /** The copy check-out makes for one item: from the library file named
      by its key to the record's place in the workspace. */
  function CheckOutCopy(env: Env, item: (string, MetaRecord)): Copy
  {
    Copy(LibPath(env, item.0), WorkspaceFilePath(env, item.1))
  }

  /** The status entries of a check-out of `n` items. */
  function CheckOutMarks(n: nat): (marks: seq<Status>)
    ensures |marks| == n && forall i :: 0 <= i < n ==> marks[i] == CheckOutOk
  {
    seq(n, _ => CheckOutOk)
  }

  function CheckOutCopies(env: Env, items: seq<(string, MetaRecord)>): seq<Copy>
  {
    seq(|items|, i requires 0 <= i < |items| => CheckOutCopy(env, items[i]))
  }

  /** `partition` of a text in which the separator first occurs right
      after `h`. */
  lemma PartitionAfter(h: string, m: string, t: string, hm: string)
    requires m != [] && hm == h + m[..|m| - 1]
    requires forall j :: !OccursAt(hm, m, j)
    ensures Partition(h + m + t, m).tail == t
  {
    var s := h + m + t;
    assert s[|h|..|h| + |m|] == m;
    assert OccursAt(s, m, |h|);
    var k := FindFrom(s, m, 0);
    if k < |h| {
      assert s[k..k + |m|] == (h + m[..|m| - 1])[k..k + |m|];
      assert OccursAt(h + m[..|m| - 1], m, k);
    }
    assert s[k + |m|..] == t;
  }

  /** The local path of a document below the first `/<docs>/` of its path. */
  lemma LocalPathBelow(prefix: string, docs: string, local: string)
    requires forall j :: !OccursAt(prefix + "/" + docs, "/" + docs + "/", j)
    ensures LocalPath(prefix + "/" + docs + "/" + local, docs) == local
  {
    var m := "/" + docs + "/";
    assert prefix + "/" + docs + "/" + local == prefix + m + local;
    assert m[..|m| - 1] == "/" + docs;
    assert prefix + m[..|m| - 1] == prefix + "/" + docs;
    PartitionAfter(prefix, m, local, prefix + "/" + docs);
  }

  /** A local path made of a directory and a file name splits back into them. */
  lemma SplitLocalPathOf(dir: string, file: string)
    requires '/' !in file
    ensures SplitLocalPath(if dir == [] then file else dir + "/" + file) == (dir, file)
  {
    if dir == [] {
      SplitLocalPathShape(file);
    } else {
      RPartitionAfterLastChar(dir, '/', file);
      assert dir + "/" + file == dir + ['/'] + file;
    }
  }

  /** A document added from `<prefix>/<docs>/<local>` is checked out to
      `<workspace>/<project>/<docs>/<local>`, where `<local>` is a file name
      or a directory and a file name: the record `copy_project` registers
      for it leads check-out (see `CheckOutCopy`) back to the document's
      own place below the document directory. */
  lemma CheckOutRestoresPlace(env: Env, sha1: Sha1, prefix: string, dir: string, file: string)
    requires IsPlainSegment(env.workspaceDirPath) && IsPlainSegment(env.projectCode)
    requires IsPlainSegment(env.docSourceDirName)
    requires file != [] && '/' !in file
    requires dir == [] || IsPlainSegment(dir)
    requires forall j :: !OccursAt(prefix + "/" + env.docSourceDirName, "/" + env.docSourceDirName + "/", j)
    ensures var local := if dir == [] then file else dir + "/" + file;
      WorkspaceFilePath(env, RecordOf(env, prefix + "/" + env.docSourceDirName + "/" + local, sha1))
      == env.workspaceDirPath + "/" + env.projectCode + "/" + env.docSourceDirName + "/" + local
  {
    var local := if dir == [] then file else dir + "/" + file;
    var path := prefix + "/" + env.docSourceDirName + "/" + local;
    LocalPathBelow(prefix, env.docSourceDirName, local);
    SplitLocalPathOf(dir, file);
    var rec := RecordOf(env, path, sha1);
    assert rec.targetDir == dir && rec.fileName == file;
    var w := MakeWorkspacePath(env, dir);
    PathJoinPlain(w, file);
    var docs := env.workspaceDirPath + "/" + env.projectCode + "/" + env.docSourceDirName;
    if dir != [] {
      SlashAssoc(docs, dir, file);
    }
  }

  lemma SlashAssoc(x: string, y: string, z: string)
    ensures x + "/" + y + "/" + z == x + "/" + (y + "/" + z)
  {
  }

  // ---------------------------------------------------------------------
  // Merge

  /** The key of the auto directive: the `only` name space with no attribute. */
  function AutoKey(env: Env): string
  {
    DocProperty(OnlyNameSpace, "", env.rules.nameSpaceSep)
  }

  function ProductKey(env: Env): string
  {
    DocProperty(DefaultNameSpace, ProductAttribute, env.rules.nameSpaceSep)
  }

  function VersionKey(env: Env): string
  {
    DocProperty(DefaultNameSpace, VersionAttribute, env.rules.nameSpaceSep)
  }

  /** The keys `MergeOperation` compares for the product and version agents
      are spelt with the upper-case `L` of `dL`, which a parsed key never
      has in that place: those agents are never reached. */
  lemma DefaultKeysNeverIndexed(env: Env, lines: seq<string>)
    requires IndexOf(lines, env.rules).Collected?
    ensures ProductKey(env) !in IndexOf(lines, env.rules).m
    ensures VersionKey(env) !in IndexOf(lines, env.rules).m
  {
    DefaultNameSpaceNeverIndexed(lines, env.rules, ProductAttribute);
    DefaultNameSpaceNeverIndexed(lines, env.rules, VersionAttribute);
  }

  /** `MergeOperation` opens only files in the default format. */
  predicate IsDoc(env: Env, rec: MetaRecord)
  {
    EndsWith(rec.fileName, env.defaultDocFormat)
  }

  /** The directive index of a record's file in the workspace. */
  function DocIndex(env: Env, disk: Disk, rec: MetaRecord): Index
  {
    IndexOf(disk.lines(WorkspaceFilePath(env, rec)), env.rules)
  }

  /** Merging this record raises out of the operation. */
  predicate MergeRaises(env: Env, disk: Disk, rec: MetaRecord)
  {
    IsDoc(env, rec) && DocIndex(env, disk, rec).Failed?
  }

  /** The first `n` items merge without raising. */
  predicate MergedWithoutRaising(env: Env, disk: Disk, items: seq<(string, MetaRecord)>, n: nat)
  {
    n <= |items| && forall i :: 0 <= i < n ==> !MergeRaises(env, disk, items[i].1)
  }

  /** A merge of `items` stops at `n`: every item before it merges without
      raising, and it is either the end or an item that raises. */
  predicate StopsAt(env: Env, disk: Disk, items: seq<(string, MetaRecord)>, n: nat)
  {
    MergedWithoutRaising(env, disk, items, n) && (n < |items| ==> MergeRaises(env, disk, items[n].1))
  }

  /** A merge stops at one place only. */
  lemma StopsAtUnique(env: Env, disk: Disk, items: seq<(string, MetaRecord)>, n: nat, m: nat)
    requires StopsAt(env, disk, items, n) && StopsAt(env, disk, items, m)
    ensures n == m
  {
  }

  /** A merge of `items` from the state (`status0`, `copies0`) has got
      through the first `n` of them: it has added their status entries, and
      the auto agent's copies of their documents after the earlier copies. */
  ghost predicate MergeProgress(env: Env, disk: Disk, items: seq<(string, MetaRecord)>, n: nat,
                                status0: seq<Status>, status: seq<Status>, copies0: seq<Copy>, copies: seq<Copy>)
  {
    && MergedWithoutRaising(env, disk, items, n)
    && status == status0 + MergeMarks(env, items[..n])
    && |copies| >= |copies0| && copies[..|copies0|] == copies0
    && forall c :: c in copies[|copies0|..] <==> exists i :: 0 <= i < n && c in AutoCopies(env, disk, items[i].1)
  }

  /** The outcome of a whole merge: it stops at `n`, with the progress up to
      there, raising the exception of that item's directives if it is one. */
  ghost predicate MergeDone(env: Env, disk: Disk, items: seq<(string, MetaRecord)>, n: nat, raised: Option<PyError>,
                            status0: seq<Status>, status: seq<Status>, copies0: seq<Copy>, copies: seq<Copy>)
  {
    && StopsAt(env, disk, items, n)
    && MergeProgress(env, disk, items, n, status0, status, copies0, copies)
    && raised == (if n < |items| then Some(DocIndex(env, disk, items[n].1).e) else None)
  }

  /** The status entries a merge adds for the items it got through: one
      `Merge.Failed` per file not in the default format, and nothing else. */
  function MergeMarks(env: Env, items: seq<(string, MetaRecord)>): (marks: seq<Status>)
    ensures |marks| <= |items|
    ensures forall i :: 0 <= i < |marks| ==> marks[i] == MergeFailed
    ensures marks == [] <==> forall i :: 0 <= i < |items| ==> IsDoc(env, items[i].1)
    decreases |items|
  {
    if items == [] then []
    else
      var n := |items| - 1;
      MergeMarks(env, items[..n]) + if IsDoc(env, items[n].1) then [] else [MergeFailed]
  }

  /** The copies the auto agent makes for a record's document: one per
      value of its auto directive that is not the project code, to the
      path with the project directory renamed to that value. */
  ghost function AutoCopies(env: Env, disk: Disk, rec: MetaRecord): set<Copy>
  {
    var index := DocIndex(env, disk, rec);
    var docPath := WorkspaceFilePath(env, rec);
    if IsDoc(env, rec) && index.Collected? && AutoKey(env) in index.m && env.projectCode != [] then
      set v | v in index.m[AutoKey(env)] && Upper(v) != env.projectCode
        :: Copy(docPath, TargetPath(docPath, env.projectCode, v))
    else {}
  }

  lemma MergeCopiesStep(env: Env, disk: Disk, items: seq<(string, MetaRecord)>, i: nat,
                        base: seq<Copy>, mid: seq<Copy>, now: seq<Copy>)
    requires i < |items|
    requires |base| <= |mid| && mid[..|base|] == base
    requires |mid| <= |now| && now[..|mid|] == mid
    requires forall c :: c in mid[|base|..] <==> exists j :: 0 <= j < i && c in AutoCopies(env, disk, items[j].1)
    requires forall c :: c in now[|mid|..] <==> c in AutoCopies(env, disk, items[i].1)
    ensures now[..|base|] == base
    ensures forall c :: c in now[|base|..] <==> exists j :: 0 <= j < i + 1 && c in AutoCopies(env, disk, items[j].1)
  {
    assert now[|base|..] == mid[|base|..] + now[|mid|..];
    forall c ensures c in now[|base|..] <==> exists j :: 0 <= j < i + 1 && c in AutoCopies(env, disk, items[j].1) {
      if c in AutoCopies(env, disk, items[i].1) {
        assert c in now[|mid|..];
      }
    }
  }

  // ---------------------------------------------------------------------
  // Duplicate detection

  /** `Statistics`: a sentence and the file it was found in. */
  datatype Statistics = Statistics(filePath: string, sentence: Fragment)

  /** Every statistic of the list has a sentence with key `k`. */
  predicate Filed(stats: seq<Statistics>, k: string)
  {
    forall i :: 0 <= i < |stats| ==> stats[i].sentence.signature == k
  }

  /** `DetectOperation.contents`: the statistics found for each sentence
      key, as the order the keys were first inserted in and the mapping. */
  datatype Tally = Tally(keys: seq<string>, lists: map<string, seq<Statistics>>)
  {
    /** Keys distinct and exactly the mapping's; each statistic filed under
        its own sentence's key. */
    ghost predicate Valid()
    {
      && (forall i, j :: 0 <= i < j < |keys| ==> keys[i] != keys[j])
      && (forall k :: k in lists <==> k in keys)
      && (forall k :: k in lists ==> Filed(lists[k], k))
    }

    /** The statistics under a key; none when it is absent. */
    function Under(k: string): seq<Statistics>
    {
      if k in lists then lists[k] else []
    }

    /** Appending a statistic under a key, which goes last when it is new. */
    function Add(k: string, st: Statistics): (t: Tally)
      ensures t.Under(k) == Under(k) + [st]
      ensures forall k' :: k' != k ==> t.Under(k') == Under(k')
      ensures Valid() && st.sentence.signature == k ==> t.Valid()
    {
      if k in lists then Tally(keys, lists[k := lists[k] + [st]])
      else Tally(keys + [k], lists[k := [st]])
    }
  }

  const EmptyTally: Tally := Tally([], map[])

  /** Each pair holds a statistic whose sentence has the pair's key. */
  predicate Keyed(es: seq<(string, Statistics)>)
  {
    forall i :: 0 <= i < |es| ==> es[i].1.sentence.signature == es[i].0
  }

  /** The statistics of the pairs with key `k`, in order. */
  function Matching(es: seq<(string, Statistics)>, k: string): (r: seq<Statistics>)
    ensures |r| <= |es|
    decreases |es|
  {
    if es == [] then []
    else
      var n := |es| - 1;
      Matching(es[..n], k) + if es[n].0 == k then [es[n].1] else []
  }

  /** Adding pairs one after another. */
  function AddAll(t: Tally, es: seq<(string, Statistics)>): Tally
    decreases |es|
  {
    if es == [] then t
    else
      var n := |es| - 1;
      AddAll(t, es[..n]).Add(es[n].0, es[n].1)
  }

  lemma AddAllSnoc(t: Tally, es: seq<(string, Statistics)>, j: int)
    requires 0 <= j < |es|
    ensures AddAll(t, es[..j + 1]) == AddAll(t, es[..j]).Add(es[j].0, es[j].1)
  {
    assert es[..j + 1][..j] == es[..j];
  }

  /** Under each key, adding pairs appends exactly the statistics of the
      pairs with that key, in their order. */
  lemma {:induction false} AddAllUnder(t: Tally, es: seq<(string, Statistics)>, k: string)
    ensures AddAll(t, es).Under(k) == t.Under(k) + Matching(es, k)
    decreases |es|
  {
    if es != [] {
      var n := |es| - 1;
      AddAllUnder(t, es[..n], k);
    }
  }

  /** Adding keyed pairs keeps the tally's invariant. */
  lemma {:induction false} AddAllValid(t: Tally, es: seq<(string, Statistics)>)
    requires t.Valid() && Keyed(es)
    ensures AddAll(t, es).Valid()
    decreases |es|
  {
    if es != [] {
      var n := |es| - 1;
      AddAllValid(t, es[..n]);
    }
  }

  /** Adding two runs of pairs is adding their concatenation. */
  lemma {:induction false} AddAllAppend(t: Tally, a: seq<(string, Statistics)>, b: seq<(string, Statistics)>)
    ensures AddAll(t, a + b) == AddAll(AddAll(t, a), b)
    decreases |b|
  {
    if b == [] {
      assert a + b == a;
    } else {
      var n := |b| - 1;
      assert (a + b)[..|a + b| - 1] == a + b[..n];
      AddAllAppend(t, a, b[..n]);
    }
  }

  /** The pairs `_collect_duplicates` adds for one paragraph: each sentence
      key with its statistic, in the paragraph's order. */
  function ParagraphEntries(filePath: string, p: Paragraph): (es: seq<(string, Statistics)>)
    requires p.Valid()
    ensures |es| == |p.order| && Keyed(es)
  {
    seq(|p.order|, i requires 0 <= i < |p.order| => (p.order[i], Statistics(filePath, p.sentences[p.order[i]])))
  }

  ghost predicate AllValid(ps: seq<Paragraph>)
  {
    forall i :: 0 <= i < |ps| ==> ps[i].Valid()
  }

  /** The pairs for a run of paragraphs. */
  function Entries(filePath: string, ps: seq<Paragraph>): (es: seq<(string, Statistics)>)
    requires AllValid(ps)
    ensures Keyed(es)
    decreases |ps|
  {
    if ps == [] then []
    else
      var n := |ps| - 1;
      Entries(filePath, ps[..n]) + ParagraphEntries(filePath, ps[n])
  }

  lemma EntriesSnoc(filePath: string, ps: seq<Paragraph>, i: int)
    requires AllValid(ps) && 0 <= i < |ps|
    ensures Entries(filePath, ps[..i + 1]) == Entries(filePath, ps[..i]) + ParagraphEntries(filePath, ps[i])
  {
    assert ps[..i + 1][..i] == ps[..i];
  }

  /** The paragraphs of a file are all well formed. */
  lemma {:induction false} ParagraphsOfValid(gs: seq<seq<string>>, sha1: Sha1)
    ensures AllValid(ParagraphsOf(gs, sha1))
    decreases |gs|
  {
    if gs != [] {
      PutAllValid(Fragments(gs[0], sha1));
      ParagraphsOfValid(gs[1..], sha1);
      AllValidCons(ParagraphOf(gs[0], sha1), ParagraphsOf(gs[1..], sha1));
    }
  }

  lemma AllValidCons(p: Paragraph, ps: seq<Paragraph>)
    requires p.Valid() && AllValid(ps)
    ensures AllValid([p] + ps)
  {
    assert forall i :: 1 <= i < |[p] + ps| ==> ([p] + ps)[i] == ps[i - 1];
  }

  /** The pairs for the paragraphs of a file's lines. */
  function FileEntries(filePath: string, lines: seq<string>, sha1: Sha1): (es: seq<(string, Statistics)>)
    ensures Keyed(es)
  {
    ParagraphsOfValid(Groups(lines, []), sha1);
    Entries(filePath, ParagraphsOf(Groups(lines, []), sha1))
  }

  /** The pairs for a run of files, each read from the disk. */
  function DocsEntries(docs: seq<string>, disk: Disk, sha1: Sha1): (es: seq<(string, Statistics)>)
    ensures Keyed(es)
    decreases |docs|
  {
    if docs == [] then []
    else
      var n := |docs| - 1;
      DocsEntries(docs[..n], disk, sha1) + FileEntries(docs[n], disk.lines(docs[n]), sha1)
  }

  /** The tally after looking for duplicates in the files `docs`, in that
      order: only paragraph context collects anything. */
  function Tallied(t: Tally, docs: seq<string>, disk: Disk, sha1: Sha1, context: ContextMark): Tally
  {
    if context == ParagraphContext then AddAll(t, DocsEntries(docs, disk, sha1)) else t
  }

  lemma TalliedSnoc(t: Tally, docs: seq<string>, d: string, disk: Disk, sha1: Sha1, context: ContextMark)
    ensures Tallied(t, docs + [d], disk, sha1, context)
            == if context == ParagraphContext
               then AddAll(Tallied(t, docs, disk, sha1, context), FileEntries(d, disk.lines(d), sha1))
               else Tallied(t, docs, disk, sha1, context)
  {
    if context == ParagraphContext {
      DocsEntriesSnoc(docs, d, disk, sha1);
      AddAllAppend(t, DocsEntries(docs, disk, sha1), FileEntries(d, disk.lines(d), sha1));
    }
  }

  lemma DocsEntriesSnoc(docs: seq<string>, d: string, disk: Disk, sha1: Sha1)
    ensures DocsEntries(docs + [d], disk, sha1) == DocsEntries(docs, disk, sha1) + FileEntries(d, disk.lines(d), sha1)
  {
    assert (docs + [d])[..|docs|] == docs;
  }

  /** What `display` shows of a sentence's text: text with a visible
      character whose first character is a letter or a digit. */
  predicate Shows(text: string)
  {
    !IsBlank(text) && IsAlnum(text[0])
  }

  /** A row of `display`: the file and the first 32 characters of the text. */
  function Row(st: Statistics): (string, string)
  {
    (st.filePath, Slice(st.sentence.text, 32))
  }

  /** The rows of one list of statistics, in order. */
  function Shown(stats: seq<Statistics>): seq<(string, string)>
    decreases |stats|
  {
    if stats == [] then []
    else
      var n := |stats| - 1;
      Shown(stats[..n]) + if Shows(stats[n].sentence.text) then [Row(stats[n])] else []
  }

  lemma ShownSnoc(stats: seq<Statistics>, j: int)
    requires 0 <= j < |stats|
    ensures Shown(stats[..j + 1]) == Shown(stats[..j]) + if Shows(stats[j].sentence.text) then [Row(stats[j])] else []
  {
    assert stats[..j + 1][..j] == stats[..j];
  }

  /** The rows of the keys found more than once, key by key. */
  function Rows(keys: seq<string>, lists: map<string, seq<Statistics>>): seq<(string, string)>
    decreases |keys|
  {
    if keys == [] then []
    else
      var n := |keys| - 1;
      Rows(keys[..n], lists) + if keys[n] in lists && |lists[keys[n]]| > 1 then Shown(lists[keys[n]]) else []
  }

  lemma RowsSnoc(keys: seq<string>, lists: map<string, seq<Statistics>>, i: int)
    requires 0 <= i < |keys|
    ensures Rows(keys[..i + 1], lists)
            == Rows(keys[..i], lists) + if keys[i] in lists && |lists[keys[i]]| > 1 then Shown(lists[keys[i]]) else []
  {
    assert keys[..i + 1][..i] == keys[..i];
  }

  lemma {:induction false} RowsOfEmpty(keys: seq<string>)
    ensures Rows(keys, map[]) == []
    decreases |keys|
  {
    if keys != [] {
      RowsOfEmpty(keys[..|keys| - 1]);
    }
  }

  lemma {:induction false} ShownIff(stats: seq<Statistics>, r: (string, string))
    ensures r in Shown(stats) <==> exists st :: st in stats && Shows(st.sentence.text) && r == Row(st)
    decreases |stats|
  {
    if stats != [] {
      var n := |stats| - 1;
      ShownIff(stats[..n], r);
      assert stats == stats[..n] + [stats[n]];
    }
  }

  lemma {:induction false} RowsIff(keys: seq<string>, lists: map<string, seq<Statistics>>, r: (string, string))
    ensures r in Rows(keys, lists) <==>
              exists k, st :: k in keys && k in lists && |lists[k]| > 1 && st in lists[k]
                              && Shows(st.sentence.text) && r == Row(st)
    decreases |keys|
  {
    if keys != [] {
      var n := |keys| - 1;
      RowsIff(keys[..n], lists, r);
      assert keys == keys[..n] + [keys[n]];
      if keys[n] in lists && |lists[keys[n]]| > 1 {
        ShownIff(lists[keys[n]], r);
      }
    }
  }

  /** `display` shows exactly the sentences whose key was found more than
      once and whose text passes the filter, one row per finding. */
  lemma DisplayedIff(t: Tally, r: (string, string))
    requires t.Valid()
    ensures r in Rows(t.keys, t.lists) <==>
              exists k, st :: k in t.lists && |t.lists[k]| > 1 && st in t.lists[k]
                              && Shows(st.sentence.text) && r == Row(st)
  {
    RowsIff(t.keys, t.lists, r);
  }

  /** Starting from nothing, every row shown belongs to a sentence key that
      occurs at least twice among the pairs collected, and to one of them. */
  lemma DisplayedAreDuplicates(es: seq<(string, Statistics)>, r: (string, string))
    requires Keyed(es)
    requires r in Rows(AddAll(EmptyTally, es).keys, AddAll(EmptyTally, es).lists)
    ensures exists k, st :: |Matching(es, k)| > 1 && st in Matching(es, k) && st.sentence.signature == k
                            && Shows(st.sentence.text) && r == Row(st)
  {
    var t := AddAll(EmptyTally, es);
    AddAllValid(EmptyTally, es);
    DisplayedIff(t, r);
    var k, st :| k in t.lists && |t.lists[k]| > 1 && st in t.lists[k] && Shows(st.sentence.text) && r == Row(st);
    AddAllUnder(EmptyTally, es, k);
    assert t.Under(k) == t.lists[k];
    assert EmptyTally.Under(k) == [];
    assert Matching(es, k) == t.lists[k];
  }

  /** `order` lists the paths of `done` in the format `format`, each once. */
  ghost predicate Inspected(format: string, done: set<string>, order: seq<string>)
  {
    && (forall d :: d in order <==> d in done && EndsWith(d, format))
    && (forall i, j :: 0 <= i < j < |order| ==> order[i] != order[j])
  }

  /** Part way through `inspect`: `left` and `done` split the files, `order`
      lists those of `done` that were searched, and the tally is valid and
      holds what they gave. */
  ghost predicate InspectProgress(format: string, docs: set<string>, left: set<string>, done: set<string>, order: seq<string>,
                                  start: Tally, t: Tally, disk: Disk, sha1: Sha1, context: ContextMark)
  {
    && left + done == docs && left !! done
    && Inspected(format, done, order)
    && t.Valid() && t == Tallied(start, order, disk, sha1, context)
  }

  lemma InspectedStep(format: string, done: set<string>, order: seq<string>, doc: string)
    requires Inspected(format, done, order) && doc !in done
    ensures Inspected(format, done + {doc}, if EndsWith(doc, format) then order + [doc] else order)
  {
  }

  /** One more file inspected, in the default format: `t2` is `t` after the
      file was searched. */
  lemma InspectSearched(format: string, docs: set<string>, left: set<string>, done: set<string>, order: seq<string>,
                        start: Tally, t: Tally, t2: Tally, disk: Disk, sha1: Sha1, context: ContextMark, doc: string)
    requires doc in left && t2.Valid() && EndsWith(doc, format)
    requires InspectProgress(format, docs, left, done, order, start, t, disk, sha1, context)
    requires t2 == if context == ParagraphContext then AddAll(t, FileEntries(doc, disk.lines(doc), sha1)) else t
    ensures InspectProgress(format, docs, left - {doc}, done + {doc}, order + [doc], start, t2, disk, sha1, context)
  {
    InspectedStep(format, done, order, doc);
    MoveOne(left, done, docs, doc);
    TalliedSnoc(start, order, doc, disk, sha1, context);
  }

  /** One more file inspected, in another format: nothing is collected. */
  lemma InspectSkipped(format: string, docs: set<string>, left: set<string>, done: set<string>, order: seq<string>,
                       start: Tally, t: Tally, disk: Disk, sha1: Sha1, context: ContextMark, doc: string)
    requires doc in left && !EndsWith(doc, format)
    requires InspectProgress(format, docs, left, done, order, start, t, disk, sha1, context)
    ensures InspectProgress(format, docs, left - {doc}, done + {doc}, order, start, t, disk, sha1, context)
  {
    InspectedStep(format, done, order, doc);
    MoveOne(left, done, docs, doc);
  }

  /** `DetectOperation`: the settings, what to look for and where, and the
      statistics found so far. The only target is `Duplicate`. */
  class DetectOperation {
    const env: Env
    const sha1: Sha1
    const target: TargetMark
    const context: ContextMark
    var contents: Tally

    ghost predicate Valid()
      reads this
    {
      contents.Valid()
    }

    /** `DetectOperation(env, target, context)`: nothing found yet. */
    constructor (env: Env, sha1: Sha1, target: TargetMark, context: ContextMark)
      ensures this.env == env && this.sha1 == sha1 && this.target == target && this.context == context
      ensures contents == EmptyTally && Valid()
    {
      this.env := env;
      this.sha1 := sha1;
      this.target := target;
      this.context := context;
      contents := EmptyTally;
    }

    /** `inspect`: every collected file of the project's workspace that is
        in the default format is searched for duplicates, once, in the
        (unspecified) order `order`. */
    method Inspect(disk: Disk) returns (ghost order: seq<string>)
      requires Valid()
      modifies this
      ensures Valid()
      ensures Inspected(env.defaultDocFormat, CollectedPaths(env, disk, MakeWorkspacePath(env, [])), order)
      ensures contents == Tallied(old(contents), order, disk, sha1, context)
    {
      var projectDocuments := MakeWorkspacePath(env, []);
      var docs := Collect(env, disk.walk(projectDocuments));
      order := InspectAll(docs, disk);
    }

    /** The loop of `inspect` over the collected files. */
    method InspectAll(docs: set<string>, disk: Disk) returns (ghost order: seq<string>)
      requires Valid()
      modifies this
      ensures Valid()
      ensures Inspected(env.defaultDocFormat, docs, order)
      ensures contents == Tallied(old(contents), order, disk, sha1, context)
    {
      order := [];
      ghost var start := contents;
      var left := docs;
      ghost var done: set<string> := {};
      assert DocsEntries(order, disk, sha1) == [];
      assert Tallied(start, order, disk, sha1, context) == start;
      assert Inspected(env.defaultDocFormat, done, order);
      assert left + done == docs && left !! done;
      while left != {}
        invariant InspectProgress(env.defaultDocFormat, docs, left, done, order, start, contents, disk, sha1, context)
        decreases |left|
      {
        var doc :| doc in left;
        order := InspectOne(doc, disk, start, docs, left, done, order);
        left := left - {doc};
        done := done + {doc};
      }
    }

    /** One file of the loop of `inspect`: searched when it is in the
        default format, skipped otherwise. */
    method InspectOne(doc: string, disk: Disk, ghost start: Tally, ghost docs: set<string>, ghost left: set<string>,
                      ghost done: set<string>, ghost order: seq<string>)
      returns (ghost order': seq<string>)
      requires doc in left
      requires InspectProgress(env.defaultDocFormat, docs, left, done, order, start, contents, disk, sha1, context)
      modifies this
      ensures InspectProgress(env.defaultDocFormat, docs, left - {doc}, done + {doc}, order', start, contents, disk, sha1, context)
      ensures |left - {doc}| < |left|
    {
      MoveOne(left, done, docs, doc);
      ghost var before := contents;
      if EndsWith(doc, env.defaultDocFormat) {
        CollectDuplicates(doc, disk.lines(doc));
        order' := order + [doc];
        InspectSearched(env.defaultDocFormat, docs, left, done, order, start, before, contents, disk, sha1, context, doc);
      } else {
        order' := order;
        InspectSkipped(env.defaultDocFormat, docs, left, done, order, start, contents, disk, sha1, context, doc);
      }
    }

    /** `_collect_duplicates`: in paragraph context, every sentence of every
        paragraph of the file is appended, with the file's path, to the
        list of its key; in any other context nothing is collected. */
    method CollectDuplicates(document: string, lines: seq<string>)
      requires Valid()
      modifies this
      ensures Valid()
      ensures contents == if context == ParagraphContext then AddAll(old(contents), FileEntries(document, lines, sha1)) else old(contents)
    {
      if context == ParagraphContext {
        var doc := new TextFile(document, lines, sha1);
        ParagraphsOfValid(Groups(lines, []), sha1);
        CollectParagraphs(document, doc.paragraphs.contents);
      }
    }

    /** The paragraphs of one file, in order. */
    method CollectParagraphs(filePath: string, ps: seq<Paragraph>)
      requires Valid() && AllValid(ps)
      modifies this
      ensures Valid()
      ensures contents == AddAll(old(contents), Entries(filePath, ps))
    {
      var i := 0;
      while i < |ps|
        invariant 0 <= i <= |ps|
        invariant Valid()
        invariant contents == AddAll(old(contents), Entries(filePath, ps[..i]))
      {
        CollectParagraph(filePath, ps[i]);
        EntriesSnoc(filePath, ps, i);
        AddAllAppend(old(contents), Entries(filePath, ps[..i]), ParagraphEntries(filePath, ps[i]));
        i := i + 1;
      }
      assert ps[..i] == ps;
    }

    /** The sentences of one paragraph, in its order. */
    method CollectParagraph(filePath: string, p: Paragraph)
      requires Valid() && p.Valid()
      modifies this
      ensures Valid()
      ensures contents == AddAll(old(contents), ParagraphEntries(filePath, p))
    {
      var es := ParagraphEntries(filePath, p);
      var j := 0;
      while j < |p.order|
        invariant 0 <= j <= |p.order|
        invariant Valid()
        invariant contents == AddAll(old(contents), es[..j])
      {
        var key := p.order[j];
        var stat := Statistics(filePath, p.sentences[key]);
        AddAllSnoc(old(contents), es, j);
        assert es[j] == (key, stat);
        contents := contents.Add(key, stat);
        j := j + 1;
      }
      assert es[..j] == es;
    }

    /** `display`: for a non-empty tally, key by key, the rows of the keys
        found more than once whose text passes the filter. */
    method Display() returns (rows: seq<(string, string)>)
      requires Valid()
      ensures rows == Rows(contents.keys, contents.lists)
    {
      rows := [];
      if contents.lists != map[] {
        var i := 0;
        while i < |contents.keys|
          invariant 0 <= i <= |contents.keys|
          invariant rows == Rows(contents.keys[..i], contents.lists)
        {
          var k := contents.keys[i];
          var stats := contents.lists[k];
          RowsSnoc(contents.keys, contents.lists, i);
          if |stats| > 1 {
            var shown := ShowList(stats);
            rows := rows + shown;
          }
          i := i + 1;
        }
        assert contents.keys[..i] == contents.keys;
      } else {
        RowsOfEmpty(contents.keys);
      }
    }
  }

  /** The rows of one key's list. */
  method ShowList(stats: seq<Statistics>) returns (rows: seq<(string, string)>)
    ensures rows == Shown(stats)
  {
    rows := [];
    var j := 0;
    while j < |stats|
      invariant 0 <= j <= |stats|
      invariant rows == Shown(stats[..j])
    {
      var text := stats[j].sentence.text;
      StripEmptyIffBlank(text);
      ShownSnoc(stats, j);
      if Strip(text) != [] && IsAlnum(text[0]) {
        rows := rows + [(stats[j].filePath, Slice(text, 32))];
      }
      j := j + 1;
    }
    assert stats[..j] == stats;
  }
}
