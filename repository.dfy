/**
 * Silo::Repository: opening or creating the bare Git repository that backs a
 * Silo repository, and preparing it by committing the `.silo` marker file.
 * The filesystem and the Git repository are abstract records here.
 */
module SiloRepository {
  import opened Results

  /** The file whose presence in the head tree marks a repository as managed by Silo. */
  const Marker: string := ".silo"

  /** The message of the commit that adds the marker. */
  const EnableMessage: string := "Enabled Silo for this repository"

  /** A commit: its message and the names in its tree. */
  datatype Commit = Commit(message: string, files: set<string>)

  /** A Git repository as Grit sees it: its history of commits, oldest first. */
  datatype Store = Store(commits: seq<Commit>)

  /** What is at a path on disk. */
  datatype Kind = Absent | RegularFile | Directory

  /**
   * What the constructor finds at its path: what is there, the number of
   * entries `Dir.new(path).count` reports (it counts "." and ".."), whether
   * path/HEAD exists, what path/objects and path/refs are, and the Git
   * repository Grit opens there.
   */
  datatype Disk = Disk(kind: Kind, entries: nat, head: bool, objects: Kind, refs: Kind, store: Store)

  /** The constructor's options :create and :prepare. */
  datatype Options = Options(create: bool, prepare: bool)

  /** Both options default to true. */
  const Defaults: Options := Options(create := true, prepare := true)

  datatype Error =
    | NoSuchPath             // Grit::NoSuchPathError
    | InvalidGitRepository   // Grit::InvalidGitRepositoryError
    | InvalidRepository      // Silo::InvalidRepositoryError
    | AlreadyPrepared        // Silo::AlreadyPreparedError
    | NotADirectory          // Errno::ENOTDIR from Dir.new on a file
    | NoSuchEntry            // Errno::ENOENT from File.stat on a missing objects or refs

  /** The names in the tree of the head commit; none when there is no commit. */
  function HeadFiles(s: Store): set<string>
  {
    if s.commits == [] then {} else s.commits[|s.commits| - 1].files
  }

  /** `prepared?`: the head tree holds the marker. */
  function HasMarker(s: Store): (b: bool)
    ensures b ==> |s.commits| > 0
  {
    Marker in HeadFiles(s)
  }

  /** `Grit::Repo.init_bare`: a new, empty bare repository. */
  function InitBare(): Store
  {
    Store([])
  }

  /** `commit_index`: one commit on top of the history. */
  function WithCommit(s: Store, message: string, files: set<string>): Store
  {
    Store(s.commits + [Commit(message, files)])
  }

  /**
   * The check of an existing path: a directory with entries besides "." and
   * ".." must have HEAD, and objects and refs must be directories.
   */
  function CheckLayout(d: Disk): (r: Outcome<Error>)
    requires d.kind != Absent
    ensures r == Pass <==>
      d.kind == Directory && (d.entries <= 2 || (d.head && d.objects == Directory && d.refs == Directory))
    ensures r == Fail(NotADirectory) <==> d.kind == RegularFile
    ensures r == Fail(InvalidGitRepository) <==>
      d.kind == Directory && d.entries > 2 &&
      (!d.head || d.objects == RegularFile || (d.objects == Directory && d.refs == RegularFile))
    ensures r == Fail(NoSuchEntry) <==>
      d.kind == Directory && d.entries > 2 && d.head &&
      (d.objects == Absent || (d.objects == Directory && d.refs == Absent))
    ensures r.Fail? ==> r.error in {NotADirectory, InvalidGitRepository, NoSuchEntry}
  {
    match d.kind
    case Directory =>
      if d.entries <= 2 then Pass
      else if !d.head then Fail(InvalidGitRepository)
      else (
        match d.objects
        case Absent => Fail(NoSuchEntry)
        case RegularFile => Fail(InvalidGitRepository)
        case Directory =>
          match d.refs
          case Absent => Fail(NoSuchEntry)
          case RegularFile => Fail(InvalidGitRepository)
          case Directory => Pass)
    case _ => Fail(NotADirectory)
  }

  /** `prepare` on a store: refuse a prepared one, otherwise commit the marker. */
  function PrepareStore(s: Store): (r: Result<Store, Error>)
    ensures r.Err? <==> HasMarker(s)
    ensures r.Err? ==> r.error == AlreadyPrepared
    ensures r.Ok? ==>
      && |r.value.commits| == |s.commits| + 1
      && r.value.commits[..|s.commits|] == s.commits
      && r.value.commits[|s.commits|].message == EnableMessage
      && Marker in r.value.commits[|s.commits|].files
      && HasMarker(r.value)
  {
    if HasMarker(s) then Err(AlreadyPrepared)
    else
      var r := WithCommit(s, EnableMessage, {Marker});
      assert r.commits[..|s.commits|] == s.commits;
      Ok(r)
  }

  /** The store a new Repository(path, options) ends up with, or the exception it raises. */
  function Open(d: Disk, o: Options): (r: Result<Store, Error>)
    ensures r == Err(NoSuchPath) <==> d.kind == Absent && !o.create
    ensures d.kind == Absent && o.create && o.prepare ==>
      r.Ok? && HasMarker(r.value) && |r.value.commits| == 1 && r.value.commits[0].message == EnableMessage
    ensures d.kind == Absent && o.create && !o.prepare ==> r == Ok(Store([]))
    ensures d.kind != Absent && CheckLayout(d).Fail? ==> r == Err(CheckLayout(d).error)
    ensures d.kind == Directory && d.entries > 2 && !d.head ==> r == Err(InvalidGitRepository)
    ensures r == Err(InvalidRepository) <==>
      d.kind != Absent && CheckLayout(d) == Pass && !HasMarker(d.store) && |d.store.commits| > 0
    ensures d.kind != Absent && CheckLayout(d) == Pass && d.store.commits == [] ==>
      r == (if o.prepare then PrepareStore(d.store) else Ok(d.store))
    ensures d.kind != Absent && CheckLayout(d) == Pass && HasMarker(d.store) ==> r == Ok(d.store)
    ensures d.kind == Directory && d.entries <= 2 && d.store.commits == [] ==> r.Ok?
    ensures r.Ok? && o.prepare ==> HasMarker(r.value)
    ensures r.Ok? ==> HasMarker(r.value) || r.value.commits == []
    ensures r != Err(AlreadyPrepared)
  {
    var base: Result<Store, Error> :=
      if d.kind == Absent then (if o.create then Ok(InitBare()) else Err(NoSuchPath))
      else match CheckLayout(d)
        case Fail(e) => Err(e)
        case Pass => Ok(d.store);
    match base
    case Err(e) => Err(e)
    case Ok(s) =>
      if !HasMarker(s) && |s.commits| > 0 then Err(InvalidRepository)
      else if o.prepare && !HasMarker(s) then PrepareStore(s)
      else Ok(s)
  }

  /** A Silo repository bound to a path and to the Git repository there. */
  class Repository {
    var path: string
    var git: Store

    /** A prepared repository, or one with no commits at all. */
    predicate Valid()
      reads this
    {
      Prepared() || git.commits == []
    }

    /** `prepared?`, lib/silo/repository.rb:90-92. */
    predicate Prepared()
      reads this
    {
      HasMarker(git)
    }

    /** Binds a path to a store that is prepared or has no commits. */
    constructor Bind(path: string, git: Store)
      requires HasMarker(git) || git.commits == []
      ensures this.path == path && this.git == git
      ensures Valid()
    {
      this.path := path;
      this.git := git;
    }

    /** `Repository.new(path, options)`, lib/silo/repository.rb:39-69. */
    static method New(path: string, d: Disk, o: Options) returns (r: Result<Repository, Error>)
      ensures match Open(d, o)
        case Err(e) => r == Err(e)
        case Ok(s) => r.Ok? && fresh(r.value) && r.value.path == path && r.value.git == s && r.value.Valid()
    {
      var git: Store;
      if d.kind != Absent {
        var layout := CheckLayout(d);
        if layout.Fail? {
          return Err(layout.error);
        }
        git := d.store;
      } else if o.create {
        git := InitBare();
      } else {
        return Err(NoSuchPath);
      }
      if !HasMarker(git) && |git.commits| > 0 {
        return Err(InvalidRepository);
      }
      var repo := new Repository.Bind(path, git);
      if o.prepare && !repo.Prepared() {
        var _ := repo.Prepare();
      }
      r := Ok(repo);
    }

    /** `prepare`, lib/silo/repository.rb:75-84. */
    method Prepare() returns (r: Outcome<Error>)
      modifies this`git
      ensures match PrepareStore(old(git))
        case Err(e) => r == Fail(e) && git == old(git)
        case Ok(s) => r == Pass && git == s && Prepared()
      ensures old(Valid()) ==> Valid()
    {
      if Prepared() {
        return Fail(AlreadyPrepared);
      }
      git := WithCommit(git, EnableMessage, {Marker});
      r := Pass;
    }
  }

  /** The cases of test/test_repository.rb for a path that does not exist yet. */
  lemma NewRepositoryScenarios(store: Store)
    ensures var missing := Disk(Absent, 0, false, Absent, Absent, Store([]));
      && Open(missing, Defaults).Ok? && HasMarker(Open(missing, Defaults).value)
      && Open(missing, Options(create := true, prepare := false)) == Ok(Store([]))
      && Open(missing, Options(create := false, prepare := true)) == Err(NoSuchPath)
    ensures Open(Disk(Directory, 10, false, Absent, Absent, store), Defaults) == Err(InvalidGitRepository)
    ensures store.commits != [] && !HasMarker(store) ==>
      Open(Disk(Directory, 10, true, Directory, Directory, store), Defaults) == Err(InvalidRepository)
  {
  }

  /** The cases of test/test_repository.rb for a repository that already carries the marker commit. */
  lemma ExistingRepositoryScenarios()
    ensures var s := Store([Commit(EnableMessage, {Marker})]);
      && Open(Disk(Directory, 10, true, Directory, Directory, s), Defaults) == Ok(s)
      && HasMarker(s)
      && PrepareStore(s) == Err(AlreadyPrepared)
  {
  }
}
