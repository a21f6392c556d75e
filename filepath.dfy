/**
 * The parts of Go's path/filepath package that the asset server and the image
 * listing depend on, for '/' as the only separator: Ext, Clean and a
 * two-element Join.
 */
module FilePath {
  import Strings

  /**
   * filepath.Ext: the suffix of path from the last '.' in its final element
   * on; empty when the final element has no '.'.
   */
  function Ext(path: string): (e: string)
    ensures |e| <= |path| && e == path[|path| - |e|..]
    ensures e != [] ==> e[0] == '.' && '/' !in e && '.' !in e[1..]
  {
    if path == [] || path[|path| - 1] == '/' then ""
    else if path[|path| - 1] == '.' then "."
    else
      var e := Ext(path[..|path| - 1]);
      if e == [] then [] else e + [path[|path| - 1]]
  }

  /** Some '.' of path has no '/' after it, i.e. the final element has a dot. */
  ghost predicate HasExtension(path: string) {
    exists k :: 0 <= k < |path| && path[k] == '.' && '/' !in path[k..]
  }

  /** Ext is non-empty exactly when the final element of the path holds a dot. */
  lemma {:induction false} ExtIff(path: string)
    ensures Ext(path) != [] <==> HasExtension(path)
  {
    var e := Ext(path);
    if e != [] {
      var k := |path| - |e|;
      assert path[k..] == e;
      assert path[k] == '.';
    } else if HasExtension(path) {
      var k :| 0 <= k < |path| && path[k] == '.' && '/' !in path[k..];
      var n := |path|;
      assert path[n - 1] in path[k..];
      var init := path[..n - 1];
      assert path[n - 1] != '.';
      assert k < n - 1;
      assert init[k..] == path[k..n - 1];
      assert init[k] == '.' && '/' !in init[k..];
      ExtIff(init);
      assert false;
    }
  }

  /** Only the part after the last separator decides the extension. */
  lemma {:induction false} ExtAfterSeparator(a: string, b: string)
    ensures Ext(a + "/" + b) == Ext(b)
  {
    var s := a + "/" + b;
    if b != [] {
      assert s[..|s| - 1] == a + "/" + b[..|b| - 1];
      assert s[|s| - 1] == b[|b| - 1];
      ExtAfterSeparator(a, b[..|b| - 1]);
    }
  }

  /** A path element that Clean keeps as it is: not empty, ".", or "..". */
  predicate Plain(name: string) {
    name != "" && name != "." && name != ".." && '/' !in name
  }

  predicate AllPlain(names: seq<string>) {
    forall k :: 0 <= k < |names| ==> Plain(names[k])
  }

  /** An element Clean can leave in its result: not empty, not ".", no separator. */
  predicate Element(name: string) {
    name != "" && name != "." && '/' !in name
  }

  predicate NoSeparator(names: seq<string>) {
    forall k :: 0 <= k < |names| ==> '/' !in names[k]
  }

  predicate Parents(names: seq<string>) {
    forall k :: 0 <= k < |names| ==> names[k] == ".."
  }

  /**
   * The shape of Clean's elements: no empty or "." element, and ".." only in
   * a leading run of them, which a rooted path does not have.
   */
  predicate Cleaned(names: seq<string>, rooted: bool) {
    forall k :: 0 <= k < |names| ==>
      Element(names[k]) && (names[k] == ".." ==> !rooted && Parents(names[..k]))
  }

  /**
   * The element-by-element pass of filepath.Clean: empty and "." elements
   * vanish, ".." removes the element before it, and a ".." with nothing to
   * remove is dropped in a rooted path and kept in a relative one.
   */
  function Reduce(kept: seq<string>, rest: seq<string>, rooted: bool): (names: seq<string>)
    ensures |names| <= |kept| + |rest|
    ensures Cleaned(kept, rooted) && NoSeparator(rest) ==> Cleaned(names, rooted)
    decreases |rest|
  {
    if rest == [] then kept
    else
      var name := rest[0];
      if name == "" || name == "." then Reduce(kept, rest[1..], rooted)
      else if name == ".." then
        if |kept| > 0 && kept[|kept| - 1] != ".." then
          CleanedDropLast(kept, rooted);
          Reduce(kept[..|kept| - 1], rest[1..], rooted)
        else if rooted then Reduce(kept, rest[1..], rooted)
        else Reduce(kept + [".."], rest[1..], rooted)
      else Reduce(kept + [name], rest[1..], rooted)
  }

  /** Dropping the last element keeps Clean's shape. */
  lemma CleanedDropLast(names: seq<string>, rooted: bool)
    requires |names| > 0
    ensures Cleaned(names, rooted) ==> Cleaned(names[..|names| - 1], rooted)
  {
    var init := names[..|names| - 1];
    forall k | 0 <= k < |init|
      ensures init[..k] == names[..k]
    {
    }
  }

  /**
   * filepath.Clean: the shortest lexically equivalent path; "." for an empty
   * result. It is never empty, and rooted exactly when the path is.
   */
  function Clean(path: string): (c: string)
    ensures |c| > 0
    ensures c[0] == '/' <==> |path| > 0 && path[0] == '/'
  {
    var rooted := |path| > 0 && path[0] == '/';
    var body := Strings.Join(Reduce([], Strings.Split(path), rooted));
    if rooted then "/" + body
    else if body == "" then "."
    else body
  }

  /**
   * filepath.Join of two elements: empty elements are skipped, the result is
   * cleaned. It is empty only for two empty elements, and rooted exactly when
   * its first non-empty element is.
   */
  function Join(dir: string, name: string): (path: string)
    ensures path == "" <==> dir == "" && name == ""
    ensures dir != "" ==> (path[0] == '/' <==> dir[0] == '/')
    ensures dir == "" && name != "" ==> (path[0] == '/' <==> name[0] == '/')
  {
    if dir != "" then Clean(dir + "/" + name)
    else if name != "" then Clean(name)
    else ""
  }

  /** Elements already in Clean's shape pass through the cleaning pass untouched. */
  lemma {:induction false} ReduceCleaned(kept: seq<string>, rest: seq<string>, rooted: bool)
    requires Cleaned(kept + rest, rooted)
    ensures Reduce(kept, rest, rooted) == kept + rest
    decreases |rest|
  {
    if rest != [] {
      var all := kept + rest;
      var name := rest[0];
      assert all[|kept|] == name;
      if name == ".." {
        assert all[..|kept|] == kept;
        if |kept| > 0 {
          assert kept[|kept| - 1] == "..";
        }
      }
      assert kept + [name] + rest[1..] == all;
      ReduceCleaned(kept + [name], rest[1..], rooted);
    }
  }

  /** A leading empty element vanishes in the cleaning pass. */
  lemma ReduceEmptyFirst(rest: seq<string>, rooted: bool)
    ensures Reduce([], [""] + rest, rooted) == Reduce([], rest, rooted)
  {
    assert ([""] + rest)[1..] == rest;
  }

  /** filepath.Clean is idempotent: a clean path is its own Clean. */
  lemma CleanIdempotent(path: string)
    ensures Clean(Clean(path)) == Clean(path)
  {
    var rooted := |path| > 0 && path[0] == '/';
    var names := Reduce([], Strings.Split(path), rooted);
    assert Cleaned(names, rooted);
    if rooted {
      CleanRooted(names);
    } else if names == [] {
      CleanDot();
    } else {
      CleanRelative(names);
    }
  }

  /** Elements in Clean's shape are their own cleaning pass. */
  lemma ReduceFixed(names: seq<string>, rooted: bool)
    requires Cleaned(names, rooted)
    ensures Reduce([], names, rooted) == names
  {
    assert [] + names == names;
    ReduceCleaned([], names, rooted);
  }

  /** A rooted path with elements in Clean's shape is its own Clean. */
  lemma CleanRooted(names: seq<string>)
    requires Cleaned(names, true)
    ensures Clean("/" + Strings.Join(names)) == "/" + Strings.Join(names)
  {
    var body := Strings.Join(names);
    ReduceFixed(names, true);
    assert "/" + body == "" + "/" + body;
    Strings.SplitAfterSegment("", body);
    if names == [] {
      assert Strings.Split("") == [""];
      ReduceEmptyFirst([""], true);
      ReduceEmptyFirst([], true);
    } else {
      Strings.SplitJoin(names);
      ReduceEmptyFirst(names, true);
    }
  }

  /** A relative path of elements in Clean's shape is its own Clean. */
  lemma CleanRelative(names: seq<string>)
    requires names != [] && Cleaned(names, false)
    ensures Clean(Strings.Join(names)) == Strings.Join(names)
  {
    ReduceFixed(names, false);
    Strings.SplitJoin(names);
    assert names[0][0] != '/';
  }

  /** "." is its own Clean. */
  lemma CleanDot()
    ensures Clean(".") == "."
  {
    Strings.SplitSegment(".");
    assert ["."][1..] == [];
  }

  /** Plain elements pass through the cleaning pass untouched. */
  lemma {:induction false} ReducePlain(kept: seq<string>, rest: seq<string>, rooted: bool)
    requires AllPlain(rest)
    ensures Reduce(kept, rest, rooted) == kept + rest
    decreases |rest|
  {
    if rest != [] {
      ReducePlain(kept + [rest[0]], rest[1..], rooted);
      assert kept + [rest[0]] + rest[1..] == kept + rest;
    }
  }

  /** A relative path made of plain elements is already clean. */
  lemma CleanPlain(names: seq<string>)
    requires |names| > 0 && AllPlain(names)
    ensures Clean(Strings.Join(names)) == Strings.Join(names)
  {
    var path := Strings.Join(names);
    Strings.SplitJoin(names);
    ReducePlain([], names, false);
    assert [] + names == names;
    CleanUnchanged(path);
  }

  /** A relative path that the cleaning pass leaves alone is its own Clean. */
  lemma CleanUnchanged(path: string)
    requires |path| > 0 && path[0] != '/'
    requires Strings.Join(Reduce([], Strings.Split(path), false)) == path
    ensures Clean(path) == path
  {
  }

  /** Joining a plain element with "." gives the element itself. */
  lemma JoinDot(dir: string)
    requires Plain(dir)
    ensures Join(dir, ".") == dir
  {
    Strings.SplitAfterSegment(dir, ".");
    Strings.SplitSegment(".");
    assert Strings.Split(dir + "/" + ".") == [dir, "."];
    assert [dir, "."][1..] == ["."];
    assert Reduce([dir], ["."], false) == [dir] by {
      assert ["."][1..] == [];
    }
    assert Reduce([], [dir, "."], false) == Reduce([dir], ["."], false);
  }

  /** Joining a plain element with a path of plain elements is plain concatenation. */
  lemma JoinPlain(dir: string, names: seq<string>)
    requires Plain(dir) && |names| > 0 && AllPlain(names)
    ensures Join(dir, Strings.Join(names)) == dir + "/" + Strings.Join(names)
  {
    var all := [dir] + names;
    assert all[0] == dir && all[1..] == names;
    assert Strings.Join(all) == dir + "/" + Strings.Join(names);
    CleanPlain(all);
  }
}
