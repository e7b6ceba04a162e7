/** The receiver's file system: regular files and directories by resolved place, and a script of
    refusals for the calls that open or write. */
module Disk {
  import opened BitStrings
  import opened Paths

  /** answers: whether the coming opens and writes are granted; all later ones are. */
  datatype Store = Store(files: map<Loc, seq<byte>>, dirs: set<Loc>, answers: seq<bool>)

  predicate Granted(s: Store) {
    s.answers == [] || s.answers[0]
  }

  function Tick(s: Store): Store {
    if s.answers == [] then s else s.(answers := s.answers[1..])
  }

  /** create_directories: every ancestor becomes a directory, up to the first regular file met. */
  function MakeDirs(s: Store, at: Loc): (r: Store)
    ensures r.files == s.files && r.answers == s.answers && s.dirs <= r.dirs
  {
    s.(dirs := s.dirs + (set k | 0 <= k <= |at| && (forall j | 0 <= j <= k :: at[..j] !in s.files) :: at[..k]))
  }

  /** Make the directory a target goes into, if its path names one. */
  function MakeParent(s: Store, cwd: Loc, target: Text): (r: Store)
    ensures r.files == s.files && r.answers == s.answers && s.dirs <= r.dirs
  {
    if HasParentPath(target) then MakeDirs(s, ParentOf(cwd, target)) else s
  }

  lemma ParentMade(s: Store, cwd: Loc, target: Text)
    ensures MakeParent(s, cwd, target) == if HasParentPath(target) then MakeDirs(s, ParentOf(cwd, target)) else s
  {
  }

  /** Only ancestors that are not files become directories. */
  lemma MadeDirs(s: Store, at: Loc, d: Loc)
    ensures d in MakeDirs(s, at).dirs ==> d in s.dirs || (d <= at && d !in s.files)
  {
    if d in MakeDirs(s, at).dirs && d !in s.dirs {
      var k :| 0 <= k <= |at| && (forall j | 0 <= j <= k :: at[..j] !in s.files) && d == at[..k];
      assert at[..k] !in s.files;
    }
  }

  lemma MadeParents(s: Store, cwd: Loc, target: Text, d: Loc)
    ensures d in MakeParent(s, cwd, target).dirs ==> d in s.dirs || (d <= ParentOf(cwd, target) && d !in s.files)
  {
    hide MakeDirs, ParentOf, HasParentPath;
    MadeDirs(s, ParentOf(cwd, target), d);
  }

  /** A regular file can be created or truncated here. */
  predicate CanOpen(s: Store, at: Loc) {
    at != [] && at !in s.dirs && at[..|at| - 1] in s.dirs
  }

  /** Open for writing with truncation; named says whether the path that leads there ends in a file's name. */
  function Open(s: Store, at: Loc, named: bool): (bool, Store) {
    if !named || !CanOpen(s, at) then (false, s)
    else if !Granted(s) then (false, Tick(s))
    else (true, Tick(s).(files := s.files[at := []]))
  }

  /** Append to an open file. */
  function AppendFile(s: Store, at: Loc, data: seq<byte>): (bool, Store)
    requires at in s.files
  {
    if !Granted(s) then (false, Tick(s))
    else (true, Tick(s).(files := s.files[at := s.files[at] + data]))
  }

  /** The mutable file system the receiver acts on. */
  class FileSystem {
    var store: Store
    const cwd: Loc
    const cwdText: Text

    constructor (store: Store, cwd: Loc, cwdText: Text)
      ensures this.store == store && this.cwd == cwd && this.cwdText == cwdText
    {
      this.store := store;
      this.cwd := cwd;
      this.cwdText := cwdText;
    }

    method CreateDirectories(at: Loc)
      modifies `store
      ensures store == MakeDirs(old(store), at)
    {
      store := MakeDirs(store, at);
    }

    method OpenTruncated(path: Text) returns (ok: bool)
      modifies `store
      ensures (ok, store) == Open(old(store), Locate(cwd, path), NamesFile(path))
    {
      var r := Open(store, Locate(cwd, path), NamesFile(path));
      ok, store := r.0, r.1;
    }

    method Write(at: Loc, data: seq<byte>) returns (ok: bool)
      requires at in store.files
      modifies `store
      ensures (ok, store) == AppendFile(old(store), at, data)
    {
      var r := AppendFile(store, at, data);
      ok, store := r.0, r.1;
    }
  }
}
