/**
 * Grit::Index#add as patched by Silo: the staging index keeps a tree of
 * nested dictionaries (a directory name maps to a sub-dictionary, a file name
 * to its data), and add stores data under a slash-separated path, creating
 * the directories on the way.
 */
module GritIndex {
  import opened Results
  import Strings

  /**
   * An entry of the index tree: file data, or a directory of named entries.
   * A leaf without data is Ruby's false (or nil), which add stores to mark a
   * file as removed.
   */
  datatype Node<D> = Leaf(data: Option<D>) | Dir(entries: map<string, Node<D>>)

  /** Ruby's truthiness of an entry: every entry but the removal marker is true. */
  predicate Truthy<D>(n: Node<D>)
  {
    n.Dir? || n.data.Some?
  }

  /** The root dictionary of the index. */
  type Tree<D> = map<string, Node<D>>

  /** The entry reached from n by following the names in q, if there is one. */
  function Get<D>(n: Node<D>, q: seq<string>): Option<Node<D>>
    decreases |q|
  {
    if q == [] then Some(n)
    else match n
      case Leaf(_) => None
      case Dir(m) => if q[0] in m then Get(m[q[0]], q[1..]) else None
  }

  /** The sub-dictionary under name, or an empty one when there is none or only the removal marker (`t[name] ||= {}`). */
  function Sub<D>(t: Tree<D>, name: string): Tree<D>
  {
    if name in t && t[name].Dir? then t[name].entries else map[]
  }

  /** The directory at path p, or an empty one where p leaves the tree. */
  function DirAt<D>(t: Tree<D>, p: seq<string>): (r: Tree<D>)
    ensures match Get(Dir(t), p)
      case Some(Dir(m)) => r == m
      case _ => r == map[]
    decreases |p|
  {
    if p == [] then t else DirAt(Sub(t, p[0]), p[1..])
  }

  /**
   * Reference definition of an insert: t with v stored under key in the
   * directory dirs, every directory on the way kept if present and created
   * empty if missing.
   */
  function Put<D>(t: Tree<D>, dirs: seq<string>, key: string, v: Node<D>): (r: Tree<D>)
    ensures Get(Dir(r), dirs + [key]) == Some(v)
    decreases |dirs|
  {
    if dirs == [] then t[key := v]
    else
      assert (dirs + [key])[1..] == dirs[1..] + [key];
      t[dirs[0] := Dir(Put(Sub(t, dirs[0]), dirs[1..], key, v))]
  }

  /**
   * t with the directory at p replaced by m. The Ruby hashes are shared, so
   * writing into the hash that `current` refers to changes the whole tree in
   * this way.
   */
  function Graft<D>(t: Tree<D>, p: seq<string>, m: Tree<D>): (r: Tree<D>)
    ensures Get(Dir(r), p) == Some(Dir(m))
    decreases |p|
  {
    if p == [] then m else t[p[0] := Dir(Graft(Sub(t, p[0]), p[1..], m))]
  }

  /** No directory name of dirs names file data in t: each is absent, a removal marker or a directory. */
  ghost predicate NoDataOnPath<D>(t: Tree<D>, dirs: seq<string>)
  {
    forall i :: 0 <= i < |dirs| && dirs[i] in DirAt(t, dirs[..i]) && Truthy(DirAt(t, dirs[..i])[dirs[i]]) ==>
      DirAt(t, dirs[..i])[dirs[i]].Dir?
  }

  /** The exceptions add raises before touching the tree. */
  datatype AddError =
    | EmptyPath   // `path[-1]` is nil, so `.chr` raises NoMethodError
    | NoFileName  // the path is only slashes, so `path.pop` is nil and `nil + '/'` raises NoMethodError

  /** Where add stores its data: the directory names to descend, then the key in the last one. */
  datatype Target = Target(dirs: seq<string>, key: string)

  /** Lines 15-18 of add: split the path, take the file name off, and keep a trailing '/' on it. */
  function Locate(path: string): (r: Result<Target, AddError>)
    ensures r == Err(EmptyPath) <==> path == []
    ensures r.Err? <==> forall i :: 0 <= i < |path| ==> path[i] == '/'
    ensures r.Ok? ==>
      var segs := Strings.Split(path, '/');
      && |r.value.dirs| == |segs| - 1
      && r.value.dirs == segs[..|segs| - 1]
      && (forall i :: 0 <= i < |r.value.dirs| ==> '/' !in r.value.dirs[i])
      && (path[|path| - 1] == '/' ==> r.value.key == segs[|segs| - 1] + "/")
      && (path[|path| - 1] != '/' ==> r.value.key == segs[|segs| - 1] && '/' !in r.value.key)
  {
    if path == [] then Err(EmptyPath)
    else
      var isDir := path[|path| - 1] == '/';
      var segs := Strings.Split(path, '/');
      if segs == [] then Err(NoFileName)
      else
        var filename := segs[|segs| - 1];
        Ok(Target(segs[..|segs| - 1], if isDir then filename + "/" else filename))
  }

  /** A path ending in '/' keeps the '/' on its last segment: "a/b/" stores key "b/" in directory "a". */
  lemma LocateTrailingSlash()
    ensures Locate("a/b/") == Ok(Target(["a"], "b/"))
  {
    assert Strings.Fields("", '/') == [""];
    assert "/"[1..] == "" && "b/"[1..] == "/" && "/b/"[1..] == "b/" && "a/b/"[1..] == "/b/";
    assert Strings.Fields("/", '/') == ["", ""];
    assert ['a'] + "" == "a" && ['b'] + "" == "b";
    assert ["", "b", ""][1..] == ["b", ""] && ["", ""][1..] == [""];
    assert Strings.Fields("b/", '/') == ["b", ""];
    assert Strings.Fields("/b/", '/') == ["", "b", ""];
    assert Strings.Fields("a/b/", '/') == ["a", "b", ""];
    assert ["a", "b", ""][..2] == ["a", "b"];
    assert Strings.Split("a/b/", '/') == ["a", "b"];
    assert ["a", "b"][..1] == ["a"] && "b" + "/" == "b/";
  }

  /** A leading '/' gives an empty first directory name, as Ruby's split does. */
  lemma LocateLeadingSlash()
    ensures Locate("/a") == Ok(Target([""], "a"))
  {
    assert Strings.Fields("", '/') == [""];
    assert "a"[1..] == "" && "/a"[1..] == "a" && ['a'] + "" == "a";
    assert Strings.Fields("a", '/') == ["a"];
    assert Strings.Fields("/a", '/') == ["", "a"];
    assert ["", "a"][..1] == [""];
  }

  /** What add demands: no file data sits where the path needs a directory. */
  ghost predicate CanAdd<D>(t: Tree<D>, path: string)
  {
    match Locate(path)
    case Ok(target) => NoDataOnPath(t, target.dirs)
    case Err(_) => true
  }

  lemma {:induction false} GraftTwice<D>(t: Tree<D>, p: seq<string>, m1: Tree<D>, m2: Tree<D>)
    ensures Graft(Graft(t, p, m1), p, m2) == Graft(t, p, m2)
    decreases |p|
  {
    if p != [] {
      GraftTwice(Sub(t, p[0]), p[1..], m1, m2);
      assert Sub(Graft(t, p, m1), p[0]) == Graft(Sub(t, p[0]), p[1..], m1);
    }
  }

  lemma {:induction false} DirAtExtend<D>(t: Tree<D>, p: seq<string>, name: string)
    ensures DirAt(t, p + [name]) == Sub(DirAt(t, p), name)
    decreases |p|
  {
    if p == [] {
      assert [name][1..] == [];
    } else {
      assert (p + [name])[1..] == p[1..] + [name];
      DirAtExtend(Sub(t, p[0]), p[1..], name);
    }
  }

  lemma {:induction false} GraftExtend<D>(t: Tree<D>, p: seq<string>, name: string, m: Tree<D>)
    ensures Graft(t, p, DirAt(t, p)[name := Dir(m)]) == Graft(t, p + [name], m)
    decreases |p|
  {
    if p == [] {
      assert [name][1..] == [];
    } else {
      assert (p + [name])[1..] == p[1..] + [name];
      GraftExtend(Sub(t, p[0]), p[1..], name, m);
    }
  }

  /** Writing the completed last directory back is the reference insert. */
  lemma {:induction false} GraftPut<D>(t: Tree<D>, dirs: seq<string>, key: string, v: Node<D>)
    ensures Graft(t, dirs, DirAt(t, dirs)[key := v]) == Put(t, dirs, key, v)
    decreases |dirs|
  {
    if dirs != [] {
      GraftPut(Sub(t, dirs[0]), dirs[1..], key, v);
    }
  }

  /** Does q leave the path p at some position both have? */
  predicate Diverges(p: seq<string>, q: seq<string>)
    decreases |p|
  {
    p != [] && q != [] && (p[0] != q[0] || Diverges(p[1..], q[1..]))
  }

  /** An insert leaves every entry off its path as it was: siblings at every level, other keys in the last directory. */
  lemma {:induction false} PutFrame<D>(t: Tree<D>, dirs: seq<string>, key: string, v: Node<D>, q: seq<string>)
    requires Diverges(dirs + [key], q)
    ensures Get(Dir(Put(t, dirs, key, v)), q) == Get(Dir(t), q)
    decreases |dirs|
  {
    var p := dirs + [key];
    if p[0] != q[0] {
    } else {
      assert p[1..] != [];
      assert p[1..] == dirs[1..] + [key];
      assert q[1..] != [];
      PutFrame(Sub(t, dirs[0]), dirs[1..], key, v, q[1..]);
    }
  }

  /**
   * Each directory on the path of an insert is the directory that was there
   * (or an empty one where there was none) with the next name on the path
   * added: existing directories are reused with all their other entries, and
   * missing ones are created holding only the next name.
   */
  lemma {:induction false} PutDirs<D>(t: Tree<D>, dirs: seq<string>, key: string, v: Node<D>, i: nat)
    requires i <= |dirs|
    ensures var m := DirAt(Put(t, dirs, key, v), dirs[..i]);
            var m0 := DirAt(t, dirs[..i]);
            var next := (dirs + [key])[i];
            && Get(Dir(Put(t, dirs, key, v)), dirs[..i]) == Some(Dir(m))
            && m.Keys == m0.Keys + {next}
            && (forall k :: k in m0 && k != next ==> m[k] == m0[k])
    decreases |dirs|
  {
    var r := Put(t, dirs, key, v);
    if i == 0 {
      assert dirs[..0] == [];
      assert Get(Dir(r), []) == Some(Dir(r));
    } else {
      var sub := Sub(t, dirs[0]);
      PutDirs(sub, dirs[1..], key, v, i - 1);
      assert dirs[..i][0] == dirs[0];
      assert dirs[..i][1..] == dirs[1..][..i - 1];
      assert (dirs + [key])[i] == (dirs[1..] + [key])[i - 1];
      assert Sub(r, dirs[0]) == Put(sub, dirs[1..], key, v);
      assert DirAt(r, dirs[..i]) == DirAt(Put(sub, dirs[1..], key, v), dirs[1..][..i - 1]);
      assert DirAt(t, dirs[..i]) == DirAt(sub, dirs[1..][..i - 1]);
      assert Get(Dir(r), dirs[..i]) == Get(Dir(Put(sub, dirs[1..], key, v)), dirs[1..][..i - 1]);
    }
  }

  /** Adding under the same path again overwrites; adding the same data again changes nothing. */
  lemma {:induction false} PutOverwrite<D>(t: Tree<D>, dirs: seq<string>, key: string, v1: Node<D>, v2: Node<D>)
    ensures Put(Put(t, dirs, key, v1), dirs, key, v2) == Put(t, dirs, key, v2)
    ensures Put(Put(t, dirs, key, v2), dirs, key, v2) == Put(t, dirs, key, v2)
    decreases |dirs|
  {
    if dirs != [] {
      var sub := Sub(t, dirs[0]);
      PutOverwrite(sub, dirs[1..], key, v1, v2);
      assert Sub(Put(t, dirs, key, v1), dirs[0]) == Put(sub, dirs[1..], key, v1);
      assert Sub(Put(t, dirs, key, v2), dirs[0]) == Put(sub, dirs[1..], key, v2);
    }
  }

  /** The staging index of a Grit repository. */
  class Index<D> {
    var tree: Tree<D>

    constructor (initial: Tree<D>)
      ensures tree == initial
    {
      tree := initial;
    }

    /** Grit::Index#add(path, data), lib/grit/index.rb:14-29. */
    method Add(path: string, data: Option<D>) returns (r: Outcome<AddError>)
      requires CanAdd(tree, path)
      modifies this
      ensures match Locate(path)
        case Err(e) => r == Fail(e) && tree == old(tree)
        case Ok(target) => r == Pass && tree == Put(old(tree), target.dirs, target.key, Leaf(data))
    {
      var target;
      match Locate(path) {
        case Err(e) => return Fail(e);
        case Ok(t) => target := t;
      }
      var dirs, filename := target.dirs, target.key;
      ghost var t0 := tree;
      assert NoDataOnPath(t0, dirs);
      // `current` is a copy of the hash Ruby's `current` refers to; each write
      // into it is written back into the tree at the path walked so far.
      var current := tree;
      var i := 0;
      while i < |dirs|
        invariant 0 <= i <= |dirs|
        invariant current == DirAt(t0, dirs[..i])
        invariant tree == Graft(t0, dirs[..i], current)
      {
        var dir := dirs[i];
        DirAtExtend(t0, dirs[..i], dir);
        assert dirs[..i + 1] == dirs[..i] + [dir];
        assert dir in current && Truthy(current[dir]) ==> current[dir].Dir?;
        if dir !in current || !Truthy(current[dir]) {
          GraftTwice(t0, dirs[..i], current, current[dir := Dir(map[])]);
          GraftExtend(t0, dirs[..i], dir, map[]);
          assert Sub(current, dir) == map[];
          current := current[dir := Dir(map[])];
          tree := Graft(tree, dirs[..i], current);
        } else {
          assert current[dir].Dir?;
          GraftExtend(t0, dirs[..i], dir, current[dir].entries);
          assert current[dir := Dir(current[dir].entries)] == current;
        }
        current := current[dir].entries;
        i := i + 1;
      }
      assert dirs[..i] == dirs;
      GraftTwice(t0, dirs, current, current[filename := Leaf(data)]);
      GraftPut(t0, dirs, filename, Leaf(data));
      current := current[filename := Leaf(data)];
      tree := Graft(tree, dirs, current);
      r := Pass;
    }
  }
}
